# Coroutines, ranges, comparisons and formatters of a C++20 teaching collection

This project models, in Dafny, the parts of a C++20/23 teaching collection where the
programs carry real logic.

**Coroutine wrappers.** Each wrapper (a generator, a task, a future) is a promise type
together with its handle. Module `Coroutine` gives one abstract coroutine frame for all of
them:

- A body is the sequence of values it yields, followed by its `co_return`. Endless bodies
  are a function from index to value.
- The program counter is `Initial`, `AtYield(n)`, `AtFinal` or `Released`.
- The frame has a policy for `initial_suspend` and one for `final_suspend`
  (`suspend_always` or `suspend_never`).
- Each resumption reports one event, `Yielded(v)` or `Returned(r)`.

Every wrapper module holds its promise's state and the promise's reaction to those events.
It then models the wrapper's own operations on top of the engine: `next()`, `resume()`,
`getValue()`, the iterator's `begin`/`++`/`*`/`==`, handle ownership under move and
destruction, and the drivers that use them.

**Ranges, comparisons, formatting and concepts.**

- Views are eager sequence functions, with a few hand-written views and algorithms on top:
  - the `custom_take_view`;
  - `split`/`join`/accumulate;
  - `toRoman`;
  - the students' maximum score;
  - the book-title report;
  - the binary-digit inner product.
- The `<=>` operators of the spaceship examples: defaulted, hand-written, and the
  not-quite-consistent one of `Fraction`.
- The width parser of the hand-written `std::formatter`s.
- The two variadic string concatenations of the concepts exercises.

Integers are unbounded. "Left out" names each member whose C++ counterpart can overflow,
wrap or truncate.

## Model

| member | source | states |
|---|---|---|
| Coroutine.Create | Programs/01_Coroutines/Coroutines_01_Introduction.cpp:42-47 | A fresh frame is well formed, suspended before its first statement, with no resumption executed |
| Coroutine.Resume | Programs/01_Coroutines/Coroutines_20_Await_Suspend_Resume.cpp:55-63 | One resumption reports exactly the body's next event and advances the frame by one. The frame stays resumable iff it yielded, and is done iff it returned under a suspend_always final suspend |
| Coroutine.Call | Programs/01_Coroutines/Coroutines_03_Yield_Return.cpp:29-31 | A lazy start runs no statement of the body. An eager start runs it to its first event |
| Coroutine.RunFollowsBody | Programs/01_Coroutines/Coroutines_20_Await_Suspend_Resume.cpp:110-113 | n resumptions report the body's events in order, one per resumption |
| Coroutine.FiniteBodyFinishes | Programs/01_Coroutines/Coroutines_20_Await_Suspend_Resume.cpp:83-102 | A body of k yields is done after exactly k+1 resumptions and resumable before that |
| Coroutine.EagerCallRunsToEnd | Programs/01_Coroutines/Coroutines_03_Yield_Return.cpp:37-44 | With suspend_never at the start, a body without yields runs to co_return during the call. The frame is then freed or parked at its final point according to final_suspend |
| Coroutine.LazyCallRunsOnFirstResume | Programs/01_Coroutines/Coroutines_03_Yield_Return.cpp:197-203 | With suspend_always at the start, the call runs nothing and the first resume runs the body to its end |
| Bodies.GetNumbers | Programs/01_Coroutines/Coroutines_01_Introduction.cpp:13-22 | The eager vector holds begin, begin+1, ..., end, and is empty when begin > end |
| Bodies.GetNumbersIsCountingLoop | Programs/01_Coroutines/Coroutines_01_Introduction.cpp:136-141 | The eager vector and the lazy range coroutine produce the same numbers |
| Bodies.CountingLoop | Programs/01_Coroutines/Coroutines_01_Introduction.cpp:136-141 | The counting loop yields exactly the half-open iota range |
| Bodies.FibStateIsFib | Programs/01_Coroutines/Coroutines_01_Introduction.cpp:153-162 | After k rounds of the loop the pair (a, b) holds the k-th and (k+1)-th Fibonacci numbers |
| Bodies.FibonacciYields | Programs/01_Coroutines/Coroutines_01_Introduction.cpp:153-162 | The generator yields 1, 1, 2, 3, 5, ..., each the sum of the two before |
| Bodies.FizzBuzzAgrees | Programs/01_Coroutines/Coroutines_05_Iterators.cpp:167-180 | The i-th yield is Fizz, Buzz, FizzBuzz or the number, by divisibility of i by 3 and 5 |
| Bodies.FizzBuzzFirstSix | Programs/01_Coroutines/Coroutines_05_Iterators.cpp:182-193 | The first six yields are 1, 2, Fizz, 4, Buzz, Fizz |
| Generator.Call | Programs/01_Coroutines/Coroutines_05_Iterators.cpp:22-27 | The call wraps a frame suspended before its first statement, with no current value |
| Generator.Step | Programs/01_Coroutines/Coroutines_05_Iterators.cpp:31-37 | One resumption keeps the promise's current value equal to the last value yielded so far |
| Generator.Begin | Programs/01_Coroutines/Coroutines_05_Iterators.cpp:107-112 | begin() resumes the same frame once when there is a handle, keeping its body, and does nothing otherwise |
| Generator.Increment | Programs/01_Coroutines/Coroutines_05_Iterators.cpp:91-93 | ++ resumes the same frame exactly once, keeping its body |
| Generator.Deref | Programs/01_Coroutines/Coroutines_05_Iterators.cpp:94-96 | * returns the last value the body yielded |
| Generator.NotAtEndHasValue | Programs/01_Coroutines/Coroutines_05_Iterators.cpp:94-99 | An iterator that does not compare equal to end points to a resumable frame whose current value is the latest yield |
| Generator.RangeFor | Programs/01_Coroutines/Coroutines_05_Iterators.cpp:195-205 | The range-for loop sees the body's values in order, up to the break limit or the end of a finite body |
| Generator.Next | Programs/01_Coroutines/Coroutines_05_Iterators.cpp:78-86 | next() resumes once and returns the current value, which is the latest yield. Without a handle it returns the default value |
| Generator.NextTimesFollowsBody | Programs/01_Coroutines/Coroutines_05_Iterators.cpp:78-82 | n calls of next() return the latest yield after each of n successive resumptions |
| Generator.FinalNextRepeatsLast | Programs/01_Coroutines/Coroutines_05_Iterators.cpp:31-37 | Because return_void leaves the value alone, the next() that runs the body to its end repeats the last yielded value |
| Generator.NextResultFollowsValues | Programs/01_Coroutines/Coroutines_05_Iterators.cpp:31-34 | While the body still yields, the p-th next() returns its p-th value |
| Generator.WordsDriverOverruns | Programs/01_Coroutines/Coroutines_05_Iterators.cpp:148-156 | For the nine-word generator the tenth next() returns "dog" again, not "", and leaves the frame finished, so the loop goes on to resume a done coroutine |
| FirstSteps.Call | Programs/01_Coroutines/Coroutines_02_FirstSteps.cpp:19-23 | The promise starts with a default value and the frame is suspended before its first statement |
| FirstSteps.Next | Programs/01_Coroutines/Coroutines_02_FirstSteps.cpp:54-62 | next() resumes once and returns the last yield, or the cleared sentinel once return_void has run |
| FirstSteps.TakeUntil | Programs/01_Coroutines/Coroutines_02_FirstSteps.cpp:94-97 | The longest prefix without the sentinel, followed in the input by the sentinel or by nothing |
| FirstSteps.TakeUntilUnique | Programs/01_Coroutines/Coroutines_02_FirstSteps.cpp:118-125 | Any prefix with those two properties is that one |
| FirstSteps.Drain | Programs/01_Coroutines/Coroutines_02_FirstSteps.cpp:90-97 | The while loop over next() prints the body's values up to, not including, the first one equal to the sentinel |
| FirstSteps.HelloWorldDrains | Programs/01_Coroutines/Coroutines_02_FirstSteps.cpp:74-79 | The hello-world generator prints "Hello " and "World" |
| FirstSteps.NumbersDrain | Programs/01_Coroutines/Coroutines_02_FirstSteps.cpp:163-168 | Draining generatorForNumbers(1, 10) with -1 as the stop value collects all ten numbers, 1 to 10 |
| FirstSteps.YieldedSentinelStopsEarly | Programs/01_Coroutines/Coroutines_02_FirstSteps.cpp:174-180 | The `value == -1` test cannot tell a yielded -1 from the end. For the arguments (-3, 2), chosen here and not used by the program, the drain collects only -3 and -2 |
| FirstSteps.ClearingPromiseDrainsWords | Programs/01_Coroutines/Coroutines_02_FirstSteps.cpp:34-36 | With a return_void that clears the value, the nine-word generator's loop prints all nine words and stops |
| Minimal.CallTrace | Programs/01_Coroutines/Coroutines_03_Yield_Return.cpp:99-109 | The order of "before", "inside" and "after" output under each initial_suspend policy, and whether the frame is freed |
| Minimal.EagerAndLazyTraces | Programs/01_Coroutines/Coroutines_03_Yield_Return.cpp:197-203 | The eager task prints inside before after. The lazy one prints after first and runs on resume |
| Minimal.Call04 | Programs/01_Coroutines/Coroutines_03_Yield_Return.cpp:215-219 | The counting task starts suspended with no resumption run |
| Minimal.GetNext | Programs/01_Coroutines/Coroutines_03_Yield_Return.cpp:253-256 | getNext resumes once and returns the next yield, or the unchanged value when the body ends |
| Minimal.CountBelow | Programs/01_Coroutines/Coroutines_03_Yield_Return.cpp:269-276 | The driver loop sees 0, 1, ..., limit-1 and stops at the get_next() that returns limit, after limit+1 resumptions; the counter body itself never finishes |
| Minimal.CountBelowExamples | Programs/01_Coroutines/Coroutines_03_Yield_Return.cpp:373-379 | Running the driver with limit 10 sees 0..9 and with limit 3 sees 0, 1, 2, whatever the counter's start value |
| Ownership.Spawn | Programs/01_Coroutines/Coroutines_01_Introduction.cpp:42-44 | A coroutine call gives a new wrapper that alone owns a new live frame |
| Ownership.DefaultConstruct | Programs/01_Coroutines/Coroutines_01_Introduction.cpp:73 | A default-constructed wrapper owns nothing |
| Ownership.MoveConstruct | Programs/01_Coroutines/Coroutines_01_Introduction.cpp:83-87 | The new wrapper takes the handle and the source is left empty. No frame is created or destroyed |
| Ownership.MoveAssign | Programs/01_Coroutines/Coroutines_01_Introduction.cpp:88-97 | Self-assignment changes nothing. Otherwise the target's old frame is destroyed, the target takes the source's handle and the source is emptied |
| Ownership.MoveAssignKeepsOwned | Programs/01_Coroutines/Coroutines_03_Yield_Return.cpp:178-189 | After a move assignment every live frame still has exactly one owner |
| Ownership.Destruct | Programs/01_Coroutines/Coroutines_01_Introduction.cpp:74-78 | The destructor destroys the owned frame, if any, and touches nothing else |
| Ownership.DestructFrom | Programs/01_Coroutines/Coroutines_03_Yield_Return.cpp:236-238 | Destroying the wrappers from a position on empties them and keeps ownership sound |
| Ownership.NoLeak | Programs/01_Coroutines/Coroutines_05_Iterators.cpp:53-57 | Once every wrapper is destroyed no frame is left alive: each one was destroyed exactly once |
| Ownership.DestructFromDestroys | Programs/01_Coroutines/Coroutines_01_Introduction.cpp:74-78 | Destruction only moves frames from live to destroyed |
| Task.AwaiterActsLikeSuspendAlways | Programs/01_Coroutines/Coroutines_24_Awaiter.cpp:24-31 | The custom awaiter suspends like suspend_always, so both versions of coroutine(max) suspend once per iteration |
| Task.Call | Programs/01_Coroutines/Coroutines_24_Awaiter.cpp:90-92 | The task starts suspended before its first statement |
| Task.ResumeTask | Programs/01_Coroutines/Coroutines_20_Await_Suspend_Resume.cpp:55-63 | resume() does nothing on a missing or finished frame. Otherwise it resumes once and returns true iff the body suspended again instead of finishing |
| Task.ResumeTimesReports | Programs/01_Coroutines/Coroutines_24_Awaiter.cpp:73-81 | Successive resume() calls answer true while suspension points remain, then false, and the frame is done after that |
| Task.CoroutineMaxResumes | Programs/01_Coroutines/Coroutines_20_Await_Suspend_Resume.cpp:88-102 | For coroutine(max) the i-th resume() answers i < max |
| Task.AwaiterTaskResumes | Programs/01_Coroutines/Coroutines_24_Awaiter.cpp:122-134 | With the custom awaiter and max 2 the answers are true, true, false |
| Task.DriveToEnd | Programs/01_Coroutines/Coroutines_20_Await_Suspend_Resume.cpp:110-113 | `while (task.resume())` ends with the frame done after as many true answers as the body has suspension points |
| Task.InterleaveIndependent | Programs/01_Coroutines/Coroutines_20_Await_Suspend_Resume.cpp:118-143 | Interleaving two tasks' resumptions leaves each as if resumed alone as often as it was scheduled |
| Task.TwoTasksAnswers | Programs/01_Coroutines/Coroutines_20_Await_Suspend_Resume.cpp:121-140 | Tasks with max 3 and 5 answer three and five times true before false |
| Task.TwoTasksFinish | Programs/01_Coroutines/Coroutines_20_Await_Suspend_Resume.cpp:126-140 | The alternating driver leaves both tasks finished |
| ValueGen.Call | Programs/01_Coroutines/Coroutines_21_Yield_Return.cpp:40-46 | The generator starts suspended before its first statement, with its promise at its initial values |
| ValueGen.GetValue | Programs/01_Coroutines/Coroutines_21_Yield_Return.cpp:102-106 | getValue() is 0 before the first resume and afterwards the body's latest co_yield operand. Once the body has finished it is the last value yielded |
| ValueGen.GetResult | Programs/01_Coroutines/Coroutines_21_Yield_Return.cpp:108-110 | getResult() is 0 while the body can still be resumed and the co_return operand once it is done |
| ValueGen.ResumeGen | Programs/01_Coroutines/Coroutines_21_Yield_Return.cpp:91-99 | resume() does nothing on a finished frame. Otherwise it resumes once and answers whether the body yielded |
| ValueGen.ResumeTimesAdvances | Programs/01_Coroutines/Coroutines_21_Yield_Return.cpp:91-99 | n resume() calls advance the frame up to its end and answer true exactly while yields remain |
| ValueGen.CoroutineMaxState | Programs/01_Coroutines/Coroutines_21_Yield_Return.cpp:113-130 | After n resumes of coroutine(max): answers i < max; getValue is the number of yields so far; getResult is max once co_return has run, else 0 |
| ValueGen.Motivation01 | Programs/01_Coroutines/Coroutines_21_Yield_Return.cpp:132-152 | The sample run: values 1, 2, 3, then result 3 |
| IterGen.Call | Programs/01_Coroutines/Coroutines_22_Yield_With_Iterator.cpp:41-47 | The generator starts suspended before its first statement |
| IterGen.GetNext | Programs/01_Coroutines/Coroutines_22_Yield_With_Iterator.cpp:94-101 | getNext resumes once and drops the iterator's handle exactly when the frame is done |
| IterGen.Begin | Programs/01_Coroutines/Coroutines_22_Yield_With_Iterator.cpp:118-126 | begin() gives end() on a missing or finished frame. Otherwise it resumes once and is end() iff that finished the body |
| IterGen.Deref | Programs/01_Coroutines/Coroutines_22_Yield_With_Iterator.cpp:103-106 | * returns the value the body last yielded |
| IterGen.Increment | Programs/01_Coroutines/Coroutines_22_Yield_With_Iterator.cpp:108-111 | ++ resumes the same frame once and detaches exactly when the frame is done; on a detached iterator it changes nothing |
| IterGen.RangeFor | Programs/01_Coroutines/Coroutines_22_Yield_With_Iterator.cpp:159-161 | The range-for loop sees exactly the values the body yields |
| IterGen.CoroutineThreeYields | Programs/01_Coroutines/Coroutines_22_Yield_With_Iterator.cpp:133-147 | coroutine(3) yields 1, 2, 3 |
| IterGen.BeginOnFinished | Programs/01_Coroutines/Coroutines_22_Yield_With_Iterator.cpp:118-121 | begin() on a finished generator equals end() |
| Future.CreateFuture | Programs/01_Coroutines/Coroutines09_Future.cpp:38-60 | The future's constructor sees 123 in the new cell. A body that reaches co_return at once leaves its operand in the cell, frees its frame and leaves the future the only holder. Otherwise promise and future share the cell |
| Future.GetValue | Programs/01_Coroutines/Coroutines09_Future.cpp:26-30 | getValue reads the shared cell and changes nothing |
| Future.DestroyFuture | Programs/01_Coroutines/Coroutines09_Future.cpp:22-24 | Destroying the future drops exactly its share of the cell |
| Future.EagerFutureDelivers | Programs/01_Coroutines/Coroutines09_Future.cpp:62-65 | For a body that goes straight to co_return, getValue returns its operand after the frame is gone, and reading twice agrees |
| Future.Coroutines01 | Programs/01_Coroutines/Coroutines09_Future.cpp:74-85 | The future's constructor sees 123 and getValue then returns 12345 |
| Views.Filter | Programs/02_Ranges/Ranges_Ex_05_MiscExamples.cpp:46-53 | Filtering keeps only elements that satisfy the predicate and never lengthens. Order and multiplicity are stated by the lemmas below |
| Views.Map | Programs/02_Ranges/Ranges_05_MiscExamples.cpp:135-141 | transform applies the function elementwise, keeping the length |
| Views.Take | Programs/02_Ranges/Ranges_05_MiscExamples.cpp:85-87 | take(n) is a prefix of length min(n, size) |
| Views.Drop | Programs/02_Ranges/Ranges_05_MiscExamples.cpp:85-86 | drop(n) is the rest after the first min(n, size) elements |
| Views.FilterSnoc | Programs/02_Ranges/Ranges_Ex_05_MiscExamples.cpp:46-53 | One more element at the end is appended to the result exactly when it satisfies the predicate, so kept elements keep their order |
| Views.FilterCount | Programs/02_Ranges/Ranges_Ex_05_MiscExamples.cpp:46-53 | Each value satisfying the predicate is kept as many times as it occurs, and no other value is kept |
| Views.FilterKeepsAll | Programs/02_Ranges/Ranges_Ex_05_MiscExamples.cpp:46-53 | When every element satisfies the predicate the filter returns the input unchanged |
| Views.FilterMembership | Programs/02_Ranges/Ranges_Ex_05_MiscExamples.cpp:46-53 | An element is in the filtered view iff it is in the input and satisfies the predicate |
| Views.FilterReverseCommute | Programs/02_Ranges/Ranges_Ex_05_MiscExamples.cpp:56-71 | Filtering then reversing equals reversing then filtering |
| Views.ReverseInvolution | Programs/02_Ranges/Ranges_Ex_05_MiscExamples.cpp:29-36 | Reversing twice gives the input back |
| Views.TakeDrop | Programs/02_Ranges/Ranges_05_MiscExamples.cpp:81-91 | take(n) followed by drop(n) reassembles the input |
| Views.FlattenAppend | Programs/02_Ranges/Ranges_05_MiscExamples.cpp:270-282 | join distributes over concatenation, in content and in length |
| Views.FlattenLength | Programs/02_Ranges/Ranges_05_MiscExamples.cpp:270-282 | The joined range is as long as the parts' lengths added up |
| Views.ReverseOneToTen | Programs/02_Ranges/Ranges_Ex_05_MiscExamples.cpp:29-36 | 1..10 reversed is 10..1 |
| Views.EvenThenReverse | Programs/02_Ranges/Ranges_Ex_05_MiscExamples.cpp:56-71 | The even numbers of 1..10, reversed: 10, 8, 6, 4, 2 |
| Views.FilterEvenIota | Programs/02_Ranges/Ranges_Ex_05_MiscExamples.cpp:46-53 | The even numbers of an odd-bounded iota are every second number from first+1 |
| Views.DropTakeFilter | Programs/02_Ranges/Ranges_05_MiscExamples.cpp:81-91 | drop 2, take 4, keep the even ones of 1..10: 4 and 6 |
| Views.IotaOneToTwenty | Programs/02_Ranges/Ranges_Ex_05_MiscExamples.cpp:87-92 | iota(1, 21) is 1 to 20 |
| CustomTake.MakeView | Programs/02_Ranges/Ranges_04_ViewImplementation.cpp:35-40 | base() returns the range. The view is in bounds iff 0 <= count <= size of the base, and then it visits what std::views::take(count) visits, with corrected size count |
| CustomTake.Elements | Programs/02_Ranges/Ranges_04_ViewImplementation.cpp:47-51 | [begin, end) visits the first count elements of the base, and count of them |
| CustomTake.ElementsAreTake | Programs/02_Ranges/Ranges_04_ViewImplementation.cpp:143-150 | Within bounds the custom view visits what std::views::take visits |
| CustomTake.SizeAsWritten | Programs/02_Ranges/Ranges_04_ViewImplementation.cpp:152-157 | size() as written: size of the base minus the count, or 0 if the count is larger |
| CustomTake.SizeAsWrittenMismatch | Programs/02_Ranges/Ranges_04_ViewImplementation.cpp:152-157 | size() as written matches the number of visited elements iff the base is exactly twice the count |
| CustomTake.SizeAsWrittenCounterexample | Programs/02_Ranges/Ranges_04_ViewImplementation.cpp:152-157 | On a sized three-element base (a vector holding 2, 6, 8) with count 2, the view visits two elements but size() says 1 |
| CustomTake.Size | Programs/02_Ranges/Ranges_04_ViewImplementation.cpp:152-157 | Corrected size(): the smaller of the base size and the count |
| CustomTake.SizeCountsElements | Programs/02_Ranges/Ranges_04_ViewImplementation.cpp:143-157 | The corrected size() is the number of elements the view visits |
| CustomTake.AdaptTwo | Programs/02_Ranges/Ranges_04_ViewImplementation.cpp:82-84 | custom_take(r, n) builds the view over r at once, the same view as r piped into custom_take(n). For n within r it visits the first n elements of r and reports size n; otherwise end() lies outside r |
| CustomTake.Pipe | Programs/02_Ranges/Ranges_04_ViewImplementation.cpp:89-95 | r piped into a closure builds a view over r. When the closure's count fits in r the view visits the first count elements of r and reports size count; otherwise end() lies outside r |
| CustomTake.PipeTakes | Programs/02_Ranges/Ranges_04_ViewImplementation.cpp:89-95 | r piped into custom_take(n) is take(n) of r with size n for n within r, and out of bounds for any other n |
| CustomTake.PipeIsDirect | Programs/02_Ranges/Ranges_04_ViewImplementation.cpp:68-72 | Piping into custom_take(n) and calling custom_take(r, n) build the same view |
| CustomTake.TestCustomView01 | Programs/02_Ranges/Ranges_04_ViewImplementation.cpp:210-224 | filter(is_even) of the sample gives 2, 6, 8; take 2 of that gives 2, 6 |
| CustomTake.FibonacciEvens | Programs/02_Ranges/Ranges_04_ViewImplementation.cpp:248-251 | The even Fibonacci numbers of the list are 2, 8, 34, 144 |
| CustomTake.TestCustomView03 | Programs/02_Ranges/Ranges_04_ViewImplementation.cpp:242-257 | filter even, reverse, take 2 of the list gives 144, 34 |
| TextViews.SizeOfRange | Programs/02_Ranges/Ranges_05_MiscExamples.cpp:158-170 | Counting by std::size or by walking the range gives the number of elements |
| TextViews.CopyBackInserter | Programs/02_Ranges/Ranges_05_MiscExamples.cpp:192 | Copying through a back inserter appends the range to the destination |
| TextViews.ToVector | Programs/02_Ranges/Ranges_05_MiscExamples.cpp:181-194 | The vector holds the range's elements in order, after reserving its size |
| TextViews.ToVectorSizedOnly | Programs/02_Ranges/Ranges_Ex_02_Ranges_View.cpp:342-353 | Same elements; capacity is reserved only for a sized range |
| TextViews.Split | Programs/02_Ranges/Ranges_05_MiscExamples.cpp:176 | split of an empty range has no pieces and of a non-empty one at least one |
| TextViews.PiecesJoin | Programs/02_Ranges/Ranges_05_MiscExamples.cpp:196-211 | Joining the split pieces with the pattern gives the input back |
| TextViews.SplitJoin | Programs/02_Ranges/Ranges_05_MiscExamples.cpp:284-298 | split followed by a join with the same pattern is the identity |
| TextViews.SplitWords | Programs/02_Ranges/Ranges_05_MiscExamples.cpp:242-255 | Words joined with a separator whose first character they do not contain split back into the same words |
| TextViews.PangramHasNineWords | Programs/02_Ranges/Ranges_05_MiscExamples.cpp:172-179 | The pangram splits into its nine words on " " or "-" |
| TextViews.SplitOnPattern | Programs/02_Ranges/Ranges_05_MiscExamples.cpp:284-298 | Splitting on the "-_-" pattern recovers the six words |
| TextViews.ConcatFoldIsFlatten | Programs/02_Ranges/Ranges_05_MiscExamples.cpp:266 | std::accumulate with + appends the joined words to the initial string |
| TextViews.AccumulateEqualsJoin | Programs/02_Ranges/Ranges_05_MiscExamples.cpp:257-282 | Accumulating from "" and views::join give the same string, of the summed length |
| TextViews.Interleave | Programs/02_Ranges/Ranges_05_MiscExamples.cpp:259-263 | A separator between consecutive words: 2n-1 pieces for n words |
| TextViews.FlattenInterleave | Programs/02_Ranges/Ranges_05_MiscExamples.cpp:270-282 | Joining the interleaved pieces is joining the words with the separator |
| TextViews.LoremIpsumAccumulated | Programs/02_Ranges/Ranges_05_MiscExamples.cpp:257-268 | The accumulated example is the five words joined with "." |
| TextViews.LoremIpsumJoined | Programs/02_Ranges/Ranges_05_MiscExamples.cpp:270-282 | The views::join example is the five words joined with "-" |
| Students.MaxValue | Programs/02_Ranges/Ranges_02_Ranges_View.cpp:79-82 | max of a non-empty range is an element no other exceeds; an empty range gives the fallback |
| Students.ScoresOfMembers | Programs/02_Ranges/Ranges_02_Ranges_View.cpp:84-89 | A score is in the filtered, transformed view iff some student of that year has it |
| Students.GetMaxScoreMeaning | Programs/02_Ranges/Ranges_02_Ranges_View.cpp:18-39 | With no student of the year the result is the fallback. Otherwise it is the score of such a student and at least every such score |
| Students.GetMaxScoreAlternate | Programs/02_Ranges/Ranges_02_Ranges_View.cpp:44-52 | The hand-written loop from 0 returns the larger of 0 and the maximum |
| Students.MaxScoreVersionsAgree | Programs/02_Ranges/Ranges_Ex_02_Ranges_View.cpp:88-124 | The two versions agree iff the year has a student and the maximum is not negative |
| Students.FallbackIrrelevant | Programs/02_Ranges/Ranges_Ex_02_Ranges_View.cpp:151-162 | When the year has students the fallback value does not matter |
| Students.SampleScores | Programs/02_Ranges/Ranges_Ex_02_Ranges_View.cpp:126-135 | On the sample, 2021 gives 190 and 2019 gives the fallback |
| Students.SampleScoresOf2021 | Programs/02_Ranges/Ranges_02_Ranges_View.cpp:54-62 | The 2021 scores of the sample are 120, 140, 190, 110 |
| Students.SampleScoresOf2019 | Programs/02_Ranges/Ranges_02_Ranges_View.cpp:92-100 | The sample has no 2019 student |
| Students.NumberToString | Programs/02_Ranges/Ranges_02_Ranges_View.cpp:384-386 | The number is written in double quotes |
| Students.NumberToStringRoundTrip | Programs/02_Ranges/Ranges_02_Ranges_View.cpp:359-364 | Reading the quoted text back gives the number |
| Roman.Table | Programs/02_Ranges/Ranges_05_MiscExamples.cpp:104-119 | The table has thirteen numerals |
| Roman.TableShape | Programs/02_Ranges/Ranges_Ex_05_MiscExamples.cpp:97-112 | Its values strictly decrease down to 1 |
| Roman.EmitTotal | Programs/02_Ranges/Ranges_05_MiscExamples.cpp:125-129 | The emitted numerals add up to the value |
| Roman.EmitNonPositive | Programs/02_Ranges/Ranges_05_MiscExamples.cpp:121-132 | A value of 0 or less emits nothing |
| Roman.EmitOrdered | Programs/02_Ranges/Ranges_05_MiscExamples.cpp:104-123 | Numerals are emitted in table order, so their values never increase |
| Roman.RomanOfMeaning | Programs/02_Ranges/Ranges_Ex_05_MiscExamples.cpp:116-123 | toRoman's numerals add up to the value and never increase; a non-positive value gives "" |
| Roman.ToRoman | Programs/02_Ranges/Ranges_05_MiscExamples.cpp:102-133 | The nested loop computes the greedy numeral |
| Roman.RomanSeven | Programs/02_Ranges/Ranges_05_MiscExamples.cpp:146-152 | toRoman(7) is VII |
| Roman.RomanFourteen | Programs/02_Ranges/Ranges_05_MiscExamples.cpp:146-152 | toRoman(14) is XIV |
| Roman.RomanTwentyOne | Programs/02_Ranges/Ranges_05_MiscExamples.cpp:146-152 | toRoman(21) is XXI |
| Roman.Example08 | Programs/02_Ranges/Ranges_05_MiscExamples.cpp:144-153 | The pipeline over 1..21 gives XXI, XIV, VII |
| Roman.SevensUpToTwentyOne | Programs/02_Ranges/Ranges_Ex_05_MiscExamples.cpp:139-140 | The multiples of 7 in 1..21 are 7, 14, 21 |
| Books.AccumulateFromNonEmpty | Programs/02_Ranges/Ranges_Ex_06_RealworldExamples.cpp:46-51 | From a non-empty start every title is appended after ", " |
| Books.AccumulateIsJoin | Programs/02_Ranges/Ranges_Ex_06_RealworldExamples.cpp:40-54 | Accumulating from "" is the ", "-join of the titles after the leading empty ones |
| Books.DropLeadingEmpty | Programs/02_Ranges/Ranges_06_RealworldExamples.cpp:41-46 | The result is a suffix whose dropped prefix was all empty and which does not itself start empty |
| Books.JoinTitlesMeaning | Programs/02_Ranges/Ranges_Ex_03_Examples.cpp:34-53 | With non-empty titles the report is the recent books' titles joined with ", " |
| Books.EmptyTitleDropsSeparator | Programs/02_Ranges/Ranges_Ex_03_Examples.cpp:45-50 | A leading empty title swallows the separator, unlike a plain join |
| Books.NoRecentBook | Programs/02_Ranges/Ranges_Ex_03_Examples.cpp:39-42 | Without books from 1990 on, the report is empty |
| Books.SampleResult | Programs/02_Ranges/Ranges_06_RealworldExamples.cpp:20-51 | The sample gives "Java, C#" |
| Binary.Powers | Programs/02_Ranges/Ranges_06_RealworldExamples.cpp:59-64 | The transformed iota holds successive powers of two |
| Binary.InnerProductIsWeighted | Programs/02_Ranges/Ranges_06_RealworldExamples.cpp:70-75 | The inner product with the powers is the digit-weighted sum |
| Binary.BinaryValueIsWeighted | Programs/02_Ranges/Ranges_Ex_06_RealworldExamples.cpp:64-80 | Reversing the digits and weighting by powers of two gives the value |
| Binary.BinaryIsHorner | Programs/02_Ranges/Ranges_06_RealworldExamples.cpp:54-78 | The value agrees with reading the digits left to right, doubling each time |
| Binary.Examples | Programs/02_Ranges/Ranges_06_RealworldExamples.cpp:56-75 | 1110 is 14 and no digits is 0 |
| Spaceship.CompareInt | Programs/06_SpaceshipOperator/SpaceshipOperator.cpp:45-47 | <=> on ints is less, equal or greater exactly as a < b, a == b, a > b |
| Spaceship.IntRelations | Programs/06_SpaceshipOperator/SpaceshipOperator.cpp:40-53 | The rewritten relations agree with the integer ones and swapping the operands flips the order |
| Spaceship.PointEquals | Programs/06_SpaceshipOperator/SpaceshipOperator.cpp:22-24 | == holds iff both coordinates agree |
| Spaceship.PointNotEquals | Programs/06_SpaceshipOperator/SpaceshipOperator.cpp:34 | != is the negation of == with the operands swapped |
| Spaceship.DefaultCompareIsLexicographic | Programs/06_SpaceshipOperator/SpaceshipOperator.cpp:106 | The defaulted <=> compares x first, then y, and is antisymmetric |
| Spaceship.DefaultCompareTransitive | Programs/06_SpaceshipOperator/SpaceshipOperator.cpp:97-107 | The defaulted less-than is transitive |
| Spaceship.Test30 | Programs/06_SpaceshipOperator/SpaceshipOperator.cpp:109-121 | (1,4) against (1,5): unequal, less, not greater |
| Spaceship.PointExCompare | Programs/06_SpaceshipOperator/SpaceshipOperator.cpp:132-147 | Only equal points compare equal |
| Spaceship.PointExAgrees | Programs/06_SpaceshipOperator/SpaceshipOperator.cpp:132-153 | The hand-written <=> equals the defaulted one, and == agrees with it |
| Spaceship.Test31 | Programs/06_SpaceshipOperator/SpaceshipOperator.cpp:156-168 | (1,1) against (1,2): unequal, less, not greater |
| Spaceship.DefaultFraction | Programs/06_SpaceshipOperator/SpaceshipOperator.cpp:182 | The default fraction is 0/1 |
| Spaceship.CrossMultiply | Programs/06_SpaceshipOperator/SpaceshipOperator.cpp:193 | Comparing cross products compares the rational values |
| Spaceship.FractionCompareMeaning | Programs/06_SpaceshipOperator/SpaceshipOperator.cpp:187-200 | <=> says equal iff the members are equal; for positive denominators it otherwise says less iff the value is smaller and greater otherwise |
| Spaceship.NotAntisymmetric | Programs/06_SpaceshipOperator/SpaceshipOperator.cpp:189-199 | 1/2 and 2/4 each compare greater than the other, though their values are equal |
| Spaceship.Test41 | Programs/06_SpaceshipOperator/SpaceshipOperator.cpp:213-225 | 1/7 against 3/7: unequal, less, not greater |
| Spaceship.FractionLessIsRational | Programs/06_SpaceshipOperator/SpaceshipOperator.cpp:193-199 | For positive denominators, the set's ordering is less-than on the rational values |
| Spaceship.MixedSignsCycle | Programs/06_SpaceshipOperator/SpaceshipOperator.cpp:193-199 | With denominators of both signs, < runs in a cycle: 0/1 < 1/1 < -1/-2 < 0/1 |
| Spaceship.Values | Programs/06_SpaceshipOperator/SpaceshipOperator.cpp:229-234 | The set of rational values the sequence holds |
| Spaceship.Insert | Programs/06_SpaceshipOperator/SpaceshipOperator.cpp:229-234 | Insertion adds only the new fraction and keeps denominators positive |
| Spaceship.InsertValues | Programs/06_SpaceshipOperator/SpaceshipOperator.cpp:229-234 | After insertion the set holds the old values plus the new one |
| Spaceship.InsertAscending | Programs/06_SpaceshipOperator/SpaceshipOperator.cpp:229-234 | Insertion keeps the set strictly ascending |
| Spaceship.InsertKeepsSet | Programs/06_SpaceshipOperator/SpaceshipOperator.cpp:227-239 | Insertion keeps the set ascending and adds exactly the new value |
| Spaceship.Test42 | Programs/06_SpaceshipOperator/SpaceshipOperator.cpp:227-239 | Inserting 3/8, 1/7, 1/2, 1/7 gives 1/7, 3/8, 1/2 |
| Formatting.GetValue | Programs/05_Formatting/Formatting_02.cpp:13-31 | Each Always class reports a multiple of 111 between 111 and 444 |
| Formatting.GetValueInjective | Programs/05_Formatting/Formatting_02.cpp:13-31 | Different classes report different values |
| Formatting.DefaultSimpleClass | Programs/05_Formatting/Formatting_REVISED_02.cpp:29 | The default SimpleClass holds 0 |
| Formatting.SimpleClassRoundTrip | Programs/05_Formatting/Formatting_REVISED_02.cpp:29-36 | getValue returns what was stored, and only 0 gives the default object |
| Formatting.NewFormatter | Programs/05_Formatting/Formatting_REVISED_02.cpp:92 | The width starts at 0 |
| Formatting.SpecEnd | Programs/05_Formatting/Formatting_02.cpp:67 | The position of the first closing brace, or the end |
| Formatting.FirstNonDigit | Programs/05_Formatting/Formatting_02.cpp:68-70 | The position of the first non-digit, or the end |
| Formatting.AppendDigitsValue | Programs/05_Formatting/Formatting_02.cpp:71 | Appending digits shifts the old width left by their count and adds their value |
| Formatting.Parse | Programs/05_Formatting/Formatting_02.cpp:64-75 | The loop rejects the first non-digit before the closing brace; otherwise it appends the digits to the width and stops at the brace |
| Formatting.ParseIgnoresRest | Programs/05_Formatting/Formatting_02.cpp:66-74 | Nothing after the first closing brace affects parse |
| Formatting.AppendDigitsConcat | Programs/05_Formatting/Formatting_REVISED_02.cpp:103 | Appending a then b is appending a + b |
| Formatting.ParseAccumulates | Programs/05_Formatting/Formatting_02.cpp:60-71 | parse never resets the width: two parses on one formatter accumulate their digits |
| Formatting.ParseExamples | Programs/05_Formatting/Formatting_REVISED_02.cpp:95-107 | "" and "}" keep width 0, "6}" gives 6 and again 66, "x}" is rejected naming 'x' |
| Formatting.ColorName | Programs/05_Formatting/Formatting_02.cpp:135-152 | red, green, blue by name, any other value as "Color" and its number |
| Formatting.ColorNameInjective | Programs/05_Formatting/Formatting_02.cpp:124-152 | Different colour values get different names |
| Concat.PrefixStep | Programs/03_Concepts/ConceptsExercises.cpp:25-28 | One more argument adds its size and its characters at the end |
| Concat.TotalSize | Programs/03_Concepts/ConceptsExercises.cpp:25-28 | The first fold adds up the arguments' sizes: the length of the result |
| Concat.ConcatStrings | Programs/03_Concepts/ConceptsExercises.cpp:21-39 | concat returns the arguments one after another, having reserved exactly their total size |
| Concat.CopyAt | Programs/03_Concepts/ConceptsExercises.cpp:55 | std::copy overwrites exactly the target slice and keeps the buffer's size and the rest |
| Concat.ConcatImproved | Programs/03_Concepts/ConceptsExercises.cpp:41-60 | Copying into a preallocated buffer at running offsets fills it exactly with the concatenation |
| Concat.ConcatVersionsAgree | Programs/03_Concepts/ConceptsExercises.cpp:21-60 | Both versions build the same string |
| Concat.ArgumentAtOffset | Programs/03_Concepts/ConceptsExercises.cpp:53-57 | Each argument lies in the result at the offset of the sizes before it |
| Concat.SlashSeparatedNumbers | Programs/03_Concepts/ConceptsExercises.cpp:62-92 | The exercise gives "111/222/333/444." |
| Concat.AliasedArguments | Programs/03_Concepts/ConceptsExercises.cpp:94-110 | Passing references that alias other arguments gives "111/111/333/333/555/777" |
| Decimal.NatToString | Programs/01_Coroutines/Coroutines_05_Iterators.cpp:176 | std::to_string of a natural number: non-empty decimal digits without a leading zero |
| Decimal.NatToStringRoundTrip | Programs/02_Ranges/Ranges_02_Ranges_View.cpp:362 | Reading the digits back gives the number |
| Decimal.IntToStringRoundTrip | Programs/01_Coroutines/Coroutines_05_Iterators.cpp:175-176 | std::to_string of any int reads back to that int |
| Decimal.IntToStringInjective | Programs/05_Formatting/Formatting_02.cpp:150 | Different numbers are written differently |

## Left out

- Coroutines_04_Awaiter_Awaitable, Coroutines_08_Scratch, Coroutines_10_Producer_Consumer, Coroutines_30_Skuril and Coroutines03_MinimalisticApproach are not part of this model. They add threads, an experimental scratch area or duplicates of the wrappers modelled here.
- The other files under 02_Ranges, 03_Concepts and 05_Formatting are not part of this model. They only print results of standard algorithms or show concept syntax.
- Printing (std::cout, std::println, std::format output) is not modelled. What a driver prints is modelled as the sequence of values it would print.
- Threads, sleeps and the producer/consumer handoff are not modelled.
- unhandled_exception is not modelled: no modelled body throws.
- The delegating formatters of Formatting_02 (lines 96-117) are not modelled: they forward to std::formatter<int>. The trivial parse of formatter<Always111> is not modelled either.
- test_02 of Formatting_REVISED_02 refers to an undeclared `val` and does not compile, so it is not modelled.
- The book prices of Ranges_06 are floating point and are not modelled; only titles and years are.
- Bodies.GetNumbers: `for (int i = begin; i <= end; ++i)` overflows when end is INT_MAX. The model's unbounded loop ends there.
- Bodies.NumbersFromTo: the `i <= end` loop of generatorForNumbers has the same INT_MAX overflow, which is not modelled.
- Task.CoroutineMax: the `val <= max` loop overflows for max == INT_MAX. This is not modelled.
- ValueGen.CoroutineMax: the same `val <= max` overflow is not modelled.
- IterGen.CoroutineMax: the same `val <= max` overflow is not modelled.
- Bodies.FizzBuzz: the endless `for (int i = 1; ; i++)` overflows after INT_MAX steps. The model's counter is unbounded.
- Bodies.Counter: `int x = 0; while (true) co_yield x++;` overflows after INT_MAX + 1 yields. The model's `Endless(k => k)` is unbounded.
- Bodies.FibonacciYields: `long long` overflow is not modelled; the values are unbounded.
- Binary.Powers: `1 << x` on int is not modelled to overflow; powers are unbounded.
- Formatting.Parse: `width * 10 + digit` on int is not modelled to overflow; the width is unbounded.
- Spaceship.FractionCompareMeaning: the value order is stated only for positive denominators. With a negative denominator the cross-multiplication flips (1/-2 compares greater than 1/3), and with a zero denominator there is no value.
- Spaceship.FractionLessIsRational: stated only for positive denominators, for the same reason.
- Spaceship.Insert: requires positive denominators. With mixed signs `<` has the cycle 0/1 < 1/1 < -1/-2 < 0/1 (Spaceship.MixedSignsCycle), which is not a strict weak ordering, and std::set's behaviour is then undefined.
- Spaceship.FractionCompareMeaning: the cross products are unbounded integers, so int overflow of `m_num * other.m_denom` is not modelled.
- Concat.TotalSize: std::size_t wrap-around of the summed length is not modelled.
- CustomTake.SizeAsWritten: states the result only for sizes and counts below 2^64. The function itself computes modulo 2^64, as the size_t cast does.
- Generator.RangeFor: the Fibonacci driver's cut-off at 1,000,000 is not modelled. The loop stops after a given number of elements instead.
- FirstSteps.Drain: requires a finite body. An endless body never yields the sentinel and the source's loop would not end.
- The uninitialised `current_value` of the namespace-04 counter in Coroutines_03 is taken as a parameter (`start`) of Minimal.Call04.
- TextViews.Split: the pattern must be non-empty. An empty pattern splits into single elements in the C++ library and is not used by the programs.
- TextViews.SplitWords: the split examples are stated through the words joined with the separator, not as literal strings.
- TextViews.ToVector: capacity and reserve are modelled only as the reserved count.
- Concat.AliasedArguments: aliasing has no observable effect in a value model, so the aliased arguments appear as repeated values.
- Wrappers that are neither copyable nor movable (the tasks of Coroutines_20 and Coroutines_24) need no ownership model beyond Ownership.
- The "source list unchanged" remarks of Ranges_02 hold trivially, since views here are pure functions.

## Findings

| source | as written | input that shows it | evidently intended | confidence | as-written member | corrected member |
|---|---|---|---|---|---|---|
| Programs/02_Ranges/Ranges_04_ViewImplementation.cpp:152-157 | size() returns the size of the base minus the count (0 if the count is larger) | a std::vector holding 2, 6, 8 (a sized range) and count 2: the view visits two elements, size() returns 1 | the smaller of the base size and the count, as std::ranges::take_view::size gives | not executed | CustomTake.SizeAsWrittenCounterexample | CustomTake.SizeCountsElements |
| Programs/01_Coroutines/Coroutines_05_Iterators.cpp:148-156 | the driver loops while next() is not "", but return_void leaves the last value in place | the nine-word generator: the tenth next() returns "dog" again and the eleventh resumes a finished coroutine | the loop stops after the nine words, as with a return_void that clears the value | not executed | Generator.WordsDriverOverruns | FirstSteps.ClearingPromiseDrainsWords |
