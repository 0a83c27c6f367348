# nerdy.js core, modelled in Dafny

This project models the core of nerdy.js, a small JavaScript library for
statistics and machine learning, together with the two runtime libraries it
is built on: Classy (classes with type-overloaded methods, events and typed
properties) and Tasks (a manager for asynchronous jobs). It also models the
little test harness the library's test suite uses.

The modules follow the source files:

| module | file | what it models |
|---|---|---|
| `Classy` | `classy.dfy` | `libs/classy.js`: validators, the generated type tests and their shared `__objs__` list, overloaded methods (`when`, `lookup`, `copy`), classes (`method`, `subclass`), the event registry and typed properties |
| `TaskQueue` | `tasks.dfy` | `libs/tasks.js`: a `Task` that runs its job once, and the `Tasks` manager that broadcasts, polls and signals |
| `DatasetModel` | `dataset.dfy` | the `nerdy.Dataset` class of `src/nerdy.js`: roots and subsets, `load`, `eachKey`, `select`, `count`, `where`, and the overloaded `init` |
| `Stats` | `stats.dfy` | `polyval`, `sum`, `ss`, `mean`, `variance`, `median` and the manhattan and chebyshev distances of `src/nerdy.js` |
| `Expand` | `expand.dfy` | `nerdy.expand`, the polynomial feature expansion, as the odometer loop it is |
| `TextParse` | `textparse.dfy` | `nerdy.parse` and its helpers `trim`, `normalizeNewlines` and `splitLine` |
| `Svm` | `svm.dfy` | `src/svm.js`: the SMO training loop, the decision function and the linear kernel |
| `HClust` | `hclust.dfy` | `src/hclust.js`: agglomerative clustering over a distance matrix held in arrays |
| `KMeans` | `kmeans.dfy` | `src/kmeans.js`: the assignment sweep, the mean update and the outer loop |
| `Knn` | `knn.dfy` | `src/knn.js`: the k-nearest-neighbour vote |
| `Pca` | `pca.dfy` | `src/pca.js`: `required` and the projection onto chosen components |
| `Neural` | `neural.dfy` | `src/neural.js`: the weight layout (`shape`, `reshape`, the flattened gradient) and the regularisation of cost and gradient |
| `Linreg` | `linreg.dfy` | `src/linreg.js`: the regularised least-squares cost and gradient, the starting point and the r² score |
| `TestReport` | `testreport.dfy` | `tests/test.js`: `Test`, `Unit` and `Tests`, and the report `results()` builds |
| `Vectors`, `Seqs`, `Wrappers` | | shared vector arithmetic, `_.indexOf`, and the `Option`/`Result` types |

Numbers are Dafny `real`s. JavaScript's `NaN` and `Infinity` results of a
division by zero are modelled as `None`. Distances in hierarchical clustering
and the maximum of an empty list use an extended real with `+Infinity` and
`-Infinity`. Strings are `seq<char>`. Foreign code, such as a user callback,
a job, a kernel or a distance function, is a parameter. What such code does
when it runs is passed in as a value.

## Model

| member | source | states |
|---|---|---|
| Classy.And | libs/classy.js:300-305 | the composed validator passes exactly where both validators pass |
| Classy.Or | libs/classy.js:306-311 | the composed validator passes exactly where either validator passes |
| Classy.Not | libs/classy.js:312-317 | the composed validator passes exactly where the validator fails |
| Classy.ValidatorAlgebra | libs/classy.js:300-317 | De Morgan's laws and double negation hold for composed validators |
| Classy.EvalExtend | libs/classy.js:204-222 | a generated test keeps its meaning when `__objs__` grows at the end |
| Classy.Intern | libs/classy.js:208-219 | the index returned names the object; the list is unchanged when the object is already present, otherwise it is appended last |
| Classy.BuildCondition | libs/classy.js:204-222 | the condition is true exactly when the argument has the type; `__objs__` grows by at most one, at the end |
| Classy.BuildTest | libs/classy.js:232-242 | the test is true exactly when the arguments match the signature, count included; `__objs__` only grows |
| Classy.FirstMatch | libs/classy.js:260-268 | no implementation is found exactly when no test passes; otherwise the implementation comes from a definition whose test passes |
| Classy.CatchAllShadows | libs/classy.js:269-276 | a definition added without a signature wins every lookup over the earlier ones |
| Classy.FirstMatchExtend | libs/classy.js:260-268 | lookups give the same answer after `__objs__` grows |
| Classy.Method.constructor | libs/classy.js:247-248 | a new method has no shared objects and no definitions |
| Classy.Method.When | libs/classy.js:269-284 | the new definition goes first; the older ones keep their order; a lookup picks the new implementation exactly when its test passes, and otherwise answers as before |
| Classy.Method.Invoke | libs/classy.js:249-259 | a call succeeds exactly when some test passes, and then runs the first match; otherwise it is a TypeError |
| Classy.Method.Copy | libs/classy.js:285-287 | the copy is a new method object with equal lists |
| Classy.ClassyClass.constructor | libs/classy.js:93-97 | a new class has an empty prototype |
| Classy.ClassyClass.Define | libs/classy.js:136-150 | defining on a plain attribute fails and changes nothing; otherwise the named method gains the definition in front, is created when absent, no other attribute changes, and every other method keeps its definitions and objects |
| Classy.ClassyClass.Subclass | libs/classy.js:152-169 | the subclass has the same attribute names; every Classy method is a fresh copy with the same lists, and other attributes are shared |
| Classy.SubclassOverloadStaysLocal | libs/classy.js:158-163 | an overload added in a subclass leaves the parent's method unchanged |
| Classy.Events.constructor | libs/classy.js:16-18 | a new registry has no events |
| Classy.Events.On | libs/classy.js:36-42 | the callback goes last in its event's list, which is created on first use |
| Classy.Events.Off | libs/classy.js:44-53 | an unknown event changes nothing; without a callback the list is emptied; with one, the entry at `indexOf` is spliced out |
| Classy.Events.Trigger | libs/classy.js:55-62 | the callbacks called are the event's list, in order |
| Classy.OffRemoves | libs/classy.js:44-53 | `off` with a registered callback removes its first occurrence; with an unregistered one it removes the last callback |
| Classy.Property.constructor | libs/classy.js:68-73 | a new property is undefined and remembers its owner, name and type |
| Classy.Property.Set | libs/classy.js:78-88 | the assignment succeeds exactly when the value has the type, fires 'change:name' and stores the value; otherwise the value is kept |
| TaskQueue.StartGuard | libs/tasks.js:14-18 | `start` on a working or failed task changes nothing; a done task runs again like a new one |
| TaskQueue.StartOutcome | libs/tasks.js:19-27 | a started task is no longer new; it failed exactly when the job threw, holding what was thrown, and is done exactly when the job called back without throwing |
| TaskQueue.Task.constructor | libs/tasks.js:8-12 | a new task has status 'new' and no error |
| TaskQueue.Task.Start | libs/tasks.js:14-28 | the new state is `Started` of the old one |
| TaskQueue.Task.Finish | libs/tasks.js:21-23 | the done callback makes the task done and keeps its error |
| TaskQueue.Broadcasted | libs/tasks.js:70-76 | broadcast keeps the number of tasks |
| TaskQueue.BroadcastStartsNew | libs/tasks.js:70-76 | after a broadcast no task is new, and every task that was not new is unchanged |
| TaskQueue.BroadcastTwice | libs/tasks.js:70-76 | a second broadcast changes nothing, whatever the jobs would do |
| TaskQueue.CountDone | libs/tasks.js:88-89 | the count of done tasks is at most the number of tasks |
| TaskQueue.AllDone | libs/tasks.js:88-95 | the done count equals the number of tasks exactly when every task is done |
| TaskQueue.PollOutcome | libs/tasks.js:87-100 | a poll signals failure exactly when a task failed and 'ready' exactly when all are done; it polls again exactly when neither |
| TaskQueue.Tasks.constructor | libs/tasks.js:59-62 | a new manager has no tasks, is not started and has signalled nothing |
| TaskQueue.Tasks.Add | libs/tasks.js:64-68 | a fresh new task goes last and is returned; no task is listed twice |
| TaskQueue.Tasks.Broadcast | libs/tasks.js:70-76 | the tasks' states become `Broadcasted` of the old states |
| TaskQueue.Tasks.Poll | libs/tasks.js:87-100 | the poll's signals are appended, and it answers whether to poll again |
| TaskQueue.Tasks.Start | libs/tasks.js:78-101 | every call broadcasts; only the first signals 'start' and polls |
| TaskQueue.Tasks.StartWith | libs/tasks.js:103-106 | the callback listens for 'ready', then the manager starts as `Start` does, and polls again exactly when no task failed and some task is not done |
| DatasetModel.SubsetArgsMatch | src/nerdy.js:1076 | the arguments `where` passes match the subset signature `[cls, Array]` |
| DatasetModel.Passing | src/nerdy.js:1233-1237 | a key passes exactly when it is one of the dataset's keys and its record satisfies the test |
| DatasetModel.PassingIncreasing | src/nerdy.js:1233-1237 | filtering keeps keys in increasing order |
| DatasetModel.Range | src/nerdy.js:1117 | the keys of a loaded root are 0 .. n - 1 |
| DatasetModel.Dataset.constructor | src/nerdy.js:1074 | the blank object `new` hands to `init` |
| DatasetModel.Dataset.Load | src/nerdy.js:1110-1119 | loading fails on a subset, or when there is no header row, and then changes nothing; otherwise the header is the first row, the data the rest and the keys 0 .. n - 1 |
| DatasetModel.Dataset.EachKey | src/nerdy.js:1121-1128 | every key is visited, in order |
| DatasetModel.Dataset.Select | src/nerdy.js:1157-1163 | one result per key, the function applied to that key's record, in key order |
| DatasetModel.Dataset.Count | src/nerdy.js:1176-1178 | the count is the number of keys |
| DatasetModel.Dataset.CollectKeys | src/nerdy.js:1229-1237 | the keys collected are `Passing` of the dataset's keys |
| DatasetModel.Dataset.Where | src/nerdy.js:1229-1239 | the result depends on which `init` definition the subset arguments select: the root one gives an empty root, the subset one a subset of the passing keys |
| DatasetModel.New | src/nerdy.js:1076-1086 | `new Dataset(...)` fails exactly when no `init` matches; otherwise the matched definition sets root, keys, head and data |
| DatasetModel.SourceInit | src/nerdy.js:1076-1086 | with the definitions in the source's order, every lookup picks the root constructor |
| DatasetModel.WhereAsWritten | src/nerdy.js:1229-1239 | whatever the test, `where` returns a fresh empty root with count 0 |
| DatasetModel.CorrectedInit | src/nerdy.js:1076-1086 | with the root constructor registered first, subset arguments pick the subset constructor and no arguments pick the root one |
| DatasetModel.WhereCorrected | src/nerdy.js:1229-1239 | `where` returns a subset of the same root holding exactly the passing keys, in order |
| DatasetModel.NewRootCorrected | src/nerdy.js:1081-1086 | with the corrected order, `new Dataset()` is still an empty root |
| Stats.Polyval | src/nerdy.js:39-46 | the loop computes the sum of coefs[i] times x to the power i |
| Stats.PolyEvalIsHorner | src/nerdy.js:39-46 | the power sum equals Horner's nested form |
| Stats.HornerCons | src/nerdy.js:39-46 | the polynomial of c :: rest is c plus x times the polynomial of rest |
| Stats.PolyvalExample | src/nerdy.js:37 | polyval([1, 2, 3], 5) is 86 |
| Stats.SumColumns | src/nerdy.js:56-62 | the matrix sum is the sum of each column |
| Stats.SumColumnsStep | src/nerdy.js:58-60 | adding row i to the column totals of the rows before it gives the column totals up to row i |
| Stats.Mean | src/nerdy.js:85-87 | the mean is undefined exactly for the empty array |
| Stats.Variance | src/nerdy.js:98-101 | the variance is undefined exactly for a single value, where the divisor n - 1 is 0 |
| Stats.SumShift | src/nerdy.js:98-101 | subtracting c from n values lowers their sum by n times c |
| Stats.DeviationsSumToZero | src/nerdy.js:85-87 | the deviations from the mean sum to zero |
| Stats.VarianceNonNegative | src/nerdy.js:98-101 | a defined variance is never negative |
| Stats.VarianceOfConstant | src/nerdy.js:98-101 | equal values have variance zero |
| Stats.AggregateExamples | src/nerdy.js:53-101 | the documented examples of sum, ss, mean and variance, and the empty-array cases |
| Stats.SortAscCorrect | src/nerdy.js:177 | the sort is ascending and a permutation of its input |
| Stats.SortedUnique | src/nerdy.js:177 | two ascending permutations of each other are equal |
| Stats.InsertPermutes | src/nerdy.js:177 | insertion adds exactly one copy of the element |
| Stats.InsertSorted | src/nerdy.js:177 | insertion keeps a sequence ascending |
| Stats.SortedFirstIsLeast | src/nerdy.js:177 | the first element of an ascending sequence is its least |
| Stats.Median | src/nerdy.js:176-186 | the median is undefined exactly for the empty array |
| Stats.MedianOfPermutation | src/nerdy.js:176-186 | the median does not depend on the order of the values |
| Stats.MedianBounded | src/nerdy.js:176-186 | the median lies between the least and the greatest value |
| Stats.MedianExamples | src/nerdy.js:167-168 | the documented examples, and the mean of the two centres for an even count |
| Stats.ManhattanMetric | src/nerdy.js:685-687 | the manhattan distance is symmetric, non-negative, and zero exactly between equal vectors |
| Stats.Manhattan | src/nerdy.js:685-687 | the manhattan distance: the sum of the absolute differences of the two vectors, entry by entry |
| Stats.Chebyshev | src/nerdy.js:711-713 | the chebyshev distance: the largest absolute difference of two entries at the same index, -Infinity for empty vectors as `Math.max` gives |
| Stats.ChebyshevSymmetric | src/nerdy.js:711-713 | the chebyshev distance is symmetric |
| Stats.ChebyshevIsLargestDifference | src/nerdy.js:711-713 | for non-empty vectors the chebyshev distance is the largest coordinate difference, and some coordinate attains it |
| Stats.ChebyshevBelowManhattan | src/nerdy.js:685-713 | the chebyshev distance never exceeds the manhattan distance |
| Expand.Degree | src/nerdy.js:762-763 | the degree is 0 exactly for an unknown name; otherwise the name is at position degree - 1 |
| Expand.TermOf | src/nerdy.js:767-773 | the running product is the product of vector[i] to the power polys[i] |
| Expand.TermOfZeros | src/nerdy.js:767-773 | with all exponents zero the term is 1 |
| Expand.ToDigitsRoundTrip | src/nerdy.js:775-788 | the digits of a number are in the box and read back as the number |
| Expand.FromDigitsRoundTrip | src/nerdy.js:775-788 | a digit sequence in the box denotes a number below b^m and is recovered from it |
| Expand.FirstReading | src/nerdy.js:762-766 | the all-zero exponents are the numeral of 0 |
| Expand.EmitStep | src/nerdy.js:776-787 | a bump that stays within p gives the numeral of the next count |
| Expand.CarryStep | src/nerdy.js:777-780 | an overflowing digit is reset and the carry moves up one place |
| Expand.LastStep | src/nerdy.js:781-782 | when the top digit overflows, every numeral below (p + 1)^m has been emitted |
| Expand.Odometer | src/nerdy.js:774-789 | the loop emits (p + 1)^m terms; term t is the product for the exponents that are the base-(p + 1) digits of t |
| Expand.ExpandTerms | src/nerdy.js:760-790 | `expand` returns (degree + 1)^m terms, term t for the digits of t |
| Expand.EmitTerm | src/nerdy.js:783-787 | emitting after a bump within p extends the output by the term of the next numeral |
| Expand.TermsIndex | src/nerdy.js:774-789 | entry t of the output is the term whose exponents are the base-(p + 1) digits of t |
| Expand.FirstTermIsOne | src/nerdy.js:774 | the first term is 1 |
| Expand.ReadingsEnumerateBox | src/nerdy.js:775-788 | the terms cover every exponent tuple in [0, p]^m, each exactly once |
| TextParse.LeadWsSpec | src/nerdy.js:1003-1005 | the leading run is all whitespace and ends at a non-space character or the end |
| TextParse.TrailWsSpec | src/nerdy.js:1003-1005 | the trailing run is all whitespace and starts after a non-space character or at the start |
| TextParse.TrimSpec | src/nerdy.js:1003-1005 | trim removes exactly a whitespace prefix and suffix, leaves no whitespace at either end, and is empty exactly for all-space text |
| TextParse.Trim | src/nerdy.js:1003-1005 | the text with its leading whitespace and then its trailing whitespace removed |
| TextParse.TrimIdempotent | src/nerdy.js:1003-1005 | trimming twice is trimming once |
| TextParse.TrimOfTrimmed | src/nerdy.js:1003-1005 | text without whitespace at either end is its own trim |
| TextParse.CrLfToLf | src/nerdy.js:1001 | the first replacement never lengthens the text |
| TextParse.CrToLf | src/nerdy.js:1001 | the second replacement keeps the length |
| TextParse.NormalizeIsLineEnds | src/nerdy.js:1000-1002 | the two replacements equal the one-pass reading in which "\r\n" and every lone '\r' become '\n' |
| TextParse.NormalizeNewlines | src/nerdy.js:1000-1002 | every "\r\n" replaced by '\n', then every remaining '\r' replaced by '\n' |
| TextParse.NormalizeNewlinesSpec | src/nerdy.js:1000-1002 | no carriage return is left; normalising twice is normalising once; text without '\r' is unchanged |
| TextParse.Split | src/nerdy.js:1007 | a split always yields at least one piece |
| TextParse.JoinSplit | src/nerdy.js:1007 | joining the pieces with the separator gives the text back |
| TextParse.SplitJoin | src/nerdy.js:1007 | splitting a join at a one-character separator that no piece holds gives the pieces back |
| TextParse.SplitNoSeparator | src/nerdy.js:1007 | text without the separator is a single piece |
| TextParse.SplitChars | src/nerdy.js:1007 | a character absent from the text is absent from every piece |
| TextParse.CharAt | src/nerdy.js:1009 | `charAt` is non-empty exactly inside the string |
| TextParse.ClosingTest | src/nerdy.js:1009 | the closing test as written holds exactly when the piece's last character is a quote |
| TextParse.OpeningTest | src/nerdy.js:1010 | the opening test as written holds exactly when the first non-space character is a quote that is not also the last character |
| TextParse.Unquote | src/nerdy.js:1011 | unquoting removes at least the two quotes |
| TextParse.CollapseEscape | src/nerdy.js:1011 | collapsing doubled quotes undoes doubling every quote |
| TextParse.CollapseNoQuote | src/nerdy.js:1011 | text without quotes is unchanged by the collapse |
| TextParse.EffectiveDelimiter | src/nerdy.js:1007 | the delimiter used is never empty |
| TextParse.TrimAll | src/nerdy.js:1021 | every field is trimmed, in order |
| TextParse.SplitLineSpecOf | src/nerdy.js:1006-1022 | with a non-empty delimiter, splitLine is split, then the backward pass from the last piece, then trim |
| TextParse.SplitLine | src/nerdy.js:1006-1022 | the method's loop computes split, then the backward pass, then trim |
| TextParse.BackPassKeeps | src/nerdy.js:1008-1020 | pieces that do not close a quote are left exactly as they are |
| TextParse.BackPassSkips | src/nerdy.js:1008-1020 | the backward pass goes over pieces that do not close a quote without changing anything |
| TextParse.BackPassFrame | src/nerdy.js:1008-1020 | the backward pass never touches pieces past the current index |
| TextParse.GlueStep | src/nerdy.js:1012-1013 | a last piece that closes without opening is glued to the piece before it with the delimiter |
| TextParse.Step | src/nerdy.js:1008-1020 | one iteration of the backward loop: a piece that closes and opens is unquoted in place, one that only closes is glued to the piece before it with the delimiter, or at index 0 the first piece is split again in front of the rest; any other piece is kept. After an iteration at x > 0 index x - 1 still exists |
| TextParse.BackPass | src/nerdy.js:1008-1020 | the backward loop from index x down to 0, one `Step` per index, the pieces untouched once x is below 0 |
| TextParse.StepThenPass | src/nerdy.js:1008-1020 | the iteration at index x followed by the loop from x - 1 down |
| TextParse.GlueDown | src/nerdy.js:1008-1015 | on a run of pieces whose last one closes and whose inner ones hold no quote, the backward pass down to the run's first piece glues the run right to left into one piece, joined with the delimiter |
| TextParse.UnquoteStep | src/nerdy.js:1010-1011 | a field that opens and closes is unquoted and its doubled quotes collapsed |
| TextParse.QuotedFieldRejoined | src/nerdy.js:1008-1020 | a quoted field cut at any number of delimiters inside it becomes one field again, its pieces joined with the delimiter |
| TextParse.SplitLineNoQuotes | src/nerdy.js:1006-1022 | on a line without quotes, splitLine is split then trim |
| TextParse.SplitLineQuotedField | src/nerdy.js:1006-1022 | a quoted field holding the delimiter one or more times comes back as one trimmed, unquoted field between the plain ones |
| TextParse.StrayClosingQuote | src/nerdy.js:1006-1022 | on a line whose only quote ends its last piece, as in `a,b"`, the quote is kept as text and the columns are the trimmed pieces of the split |
| TextParse.StrayPass | src/nerdy.js:1008-1020 | the backward pass on such a line glues every piece into the first and splits it again |
| TextParse.NonBlank | src/nerdy.js:985-987 | filtering never adds lines |
| TextParse.Parse | src/nerdy.js:980-991 | the text with its line ends normalised, split on '\n' by splitLine, lines whose trimmed text is empty dropped, and each remaining line split with the given delimiter, or with the guessed one when none is given |
| TextParse.NonBlankSpec | src/nerdy.js:985-987 | the lines kept are exactly the non-blank ones |
| TextParse.QuoteFreeLines | src/nerdy.js:984-987 | text without quotes gives lines without quotes |
| TextParse.ParseQuoteFree | src/nerdy.js:980-991 | for quote-free text, parse gives one row per non-blank line, in order, each the line's split then trimmed |
| Svm.Labels | src/svm.js:55-57 | the label is +1 exactly for a truthy target, and -1 otherwise |
| Svm.LinearKernel | src/svm.js:160-166 | the loop computes the dot product |
| Svm.LinearSymmetric | src/svm.js:160-166 | the linear kernel is symmetric |
| Svm.SupportOfZeros | src/svm.js:73-79 | with all coefficients zero the kernel sum is zero |
| Svm.Support | src/svm.js:73-79 | the kernel sum of `marginOne` without its bias: alpha[k] times y[k] times the kernel of the vector and sample k, summed over every sample |
| Svm.LinearScoreIsHyperplane | src/svm.js:73-79 | with the linear kernel the kernel sum equals the weight vector dotted with the input, so the score is affine |
| Svm.SupportIsWeights | src/svm.js:73-79 | the same, by induction on the number of samples |
| Svm.Clip | src/svm.js:113-118 | the clipped value lies in [L, H], and a value already there is unchanged |
| Svm.BoundsOrdered | src/svm.js:95-102 | L <= H whenever both coefficients start in [0, C] |
| Svm.PairStep | src/svm.js:92-136 | an accepted update moves alpha[j] by at least tol |
| Svm.PairStepInBox | src/svm.js:95-124 | an accepted update keeps both coefficients in [0, C] |
| Svm.PairStepConserves | src/svm.js:122-124 | an accepted update keeps y[i] alpha[i] + y[j] alpha[j] |
| Svm.UpdatePair | src/svm.js:92-136 | the statements from the bounds to the bias compute `PairStep` |
| Svm.BalanceKept | src/svm.js:122-124 | moving two coefficients along their line keeps the sum of y[k] alpha[k] |
| Svm.PickPartner | src/svm.js:87-90 | the partner drawn is a draw other than i; none is found exactly when every draw is i |
| Svm.SingleSampleNeverPairs | src/svm.js:87-90 | with one sample every draw is 0, so no partner is found from any stream of draws |
| Svm.NumPasses | src/svm.js:64 | a given non-zero count is kept, and an absent or zero count becomes 10 |
| Svm.Trainer.constructor | src/svm.js:42-71 | the options take their defaults, the labels are `Labels`, every coefficient is 0 and the counters are 0 |
| Svm.Trainer.MarginOne | src/svm.js:73-79 | the loop computes b plus the kernel sum |
| Svm.Trainer.Classify | src/svm.js:149-151 | the classifier answers true exactly when the score is positive |
| Svm.Trainer.TryPair | src/svm.js:91-137 | the pair changes exactly when the update is accepted, and then to its outcome; the box and the sum of y[k] alpha[k] are kept |
| Svm.Trainer.SetPair | src/svm.js:122-136 | the accepted outcome is written to alpha[j], alpha[i] and b, keeping the box and the balance |
| Svm.Trainer.SweepQuiet | src/svm.js:82-139 | the reference sweep only adds to the count, and one that adds nothing leaves the coefficients and the bias as they were |
| Svm.Trainer.SweepFrom | src/svm.js:82-139 | the reference sweep: the coefficients, bias and count after the inner loop's body for every index from i to the end; it keeps one coefficient per sample |
| Svm.Trainer.TrainFrom | src/svm.js:81-148 | the reference training loop: sweeps repeated, counting iterations and quiet passes, and it ends only with numpasses quiet passes in a row or at the iteration cap |
| Svm.Trainer.TrainWithinCap | src/svm.js:81-146 | the reference training loop stops at or before the iteration cap, never before its start, and keeps the number of coefficients |
| Svm.Trainer.Visit | src/svm.js:83-138 | one index of the sweep takes the reference sweep one step further, counts only accepted updates, and keeps the box and the balance |
| Svm.Trainer.Sweep | src/svm.js:82-139 | the new coefficients, bias and update count are those of the reference sweep `SweepFrom` from the old state; the box and the balance are kept, and a sweep reporting no change changes nothing |
| Svm.Trainer.Round | src/svm.js:82-147 | one outer pass is the reference sweep, counts an iteration, and counts a quiet pass or resets the count |
| Svm.Trainer.Train | src/svm.js:81-148 | the final coefficients, bias and counters are those of the reference loop `TrainFrom`; training stops after numpasses quiet passes or the iteration limit, keeping the box and the balance |
| Svm.FreshTrainerBalance | src/svm.js:67-68 | the starting coefficients have balance zero and kernel sum zero |
| HClust.SingleAndCompleteLinkage | src/hclust.js:80-90 | single linkage keeps the smaller distance, complete linkage the larger |
| HClust.AverageLink | src/hclust.js:80-95 | the average linkage as written: size of c1 times d1 plus size of c2 times d2, over the size of c1 plus the size of j, where c1's size already includes c2; Infinity when either distance is Infinity |
| HClust.Link | src/hclust.js:80-95 | what the linkage switch writes: single writes d2 when it is below d1, complete writes d2 when it is above d1, average writes `AverageLink`, and any other name writes nothing |
| HClust.LinkedFinite | src/hclust.js:79-97 | relinking keeps finite distances finite and infinite ones infinite |
| HClust.AverageLinkBelowBoth | src/hclust.js:91-95 | the average as written falls below both distances whenever cluster j is larger than c2 |
| HClust.AverageLinkExample | src/hclust.js:91-95 | singletons at distance 1 from a cluster of 3 merge at distance 0.6 |
| HClust.AverageLinkCorrected | src/hclust.js:91-95 | the size-weighted mean lies between the two distances |
| HClust.InitialRow | src/hclust.js:47-56 | each entry is Infinity on the diagonal and the distance elsewhere |
| HClust.FirstMinStep | src/hclust.js:57-59 | the scan keeps the first smallest entry of the prefix |
| HClust.FillRow | src/hclust.js:52-60 | row i is filled and mins[i] is its first smallest entry; other rows are unchanged |
| HClust.InitDistances | src/hclust.js:47-61 | the whole matrix and every row's first minimum |
| HClust.Closest | src/hclust.js:66-72 | c1 is the first row whose closest distance is smallest |
| HClust.UpdateLinks | src/hclust.js:79-97 | row and column c1 hold the linkage of c1 and c2 to each cluster; nothing else changes |
| HClust.ClearMerged | src/hclust.js:98-103 | d(c1, c1) and all of row and column c2 become Infinity; nothing else changes |
| HClust.RecalcMins | src/hclust.js:104-112 | references to c2 move to c1, and c1's closest index is rescanned |
| HClust.ComposeDistances | src/hclust.js:79-103 | relinking then clearing give the merged distance matrix |
| HClust.Absorb | src/hclust.js:66-77 | the closest pair is chosen; c1 holds the node of both trees and the sum of their sizes |
| HClust.Relink | src/hclust.js:78-112 | the distances and closest indices after one merge |
| HClust.Merge | src/hclust.js:65-114 | one merge pass: the closest pair, the node, the new distances and the new closest indices |
| HClust.MergedPairLive | src/hclust.js:66-73 | the merged pair is two distinct live clusters |
| HClust.MergeKeepsDistances | src/hclust.js:79-103 | after a merge exactly the distances between distinct live clusters are finite |
| HClust.MergeKeepsClosest | src/hclust.js:104-112 | after a merge every live cluster's closest index names another live cluster |
| HClust.MergeKeepsTrees | src/hclust.js:73-77 | sizes still count the leaves, and the live trees hold every sample once |
| HClust.MergeKeepsLive | src/hclust.js:65-114 | one merge keeps the loop invariant and retires c2 |
| HClust.Step | src/hclust.js:65-114 | a merge pass keeps the invariant and leaves one live cluster fewer |
| HClust.StartShape | src/hclust.js:47-64 | the initial matrix and closest indices satisfy the invariant |
| HClust.StartTrees | src/hclust.js:62-64 | every sample starts as its own cluster of size 1 |
| HClust.Start | src/hclust.js:47-64 | the set-up establishes the invariant with every slot live |
| HClust.Cluster | src/hclust.js:35-116 | there is no tree exactly for fewer than two samples; the tree holds every sample exactly once |
| KMeans.Nearest | src/kmeans.js:60-62 | the index of a nearest mean, the first on ties |
| KMeans.NearestAmong | src/kmeans.js:60-62 | the same over the first k means |
| KMeans.Assign | src/kmeans.js:58-67 | every point is assigned its nearest mean |
| KMeans.SameIff | src/kmeans.js:64-67 | element-by-element comparison is equality of assignments |
| KMeans.SizesSnoc | src/kmeans.js:70 | one more point raises its cluster's size only |
| KMeans.Sizes | src/kmeans.js:69-78 | one count per cluster, the number of points grouped to it |
| KMeans.Totals | src/kmeans.js:69-78 | one sum per cluster, of width n, adding up the points grouped to it (the zero vector when there are none) |
| KMeans.NextMean | src/kmeans.js:69-78 | a cluster's next mean: its total divided by its size, or the total itself when the cluster is empty; same width as the total |
| KMeans.SizesSum | src/kmeans.js:69-70 | the cluster sizes add up to the number of points |
| KMeans.TotalsSnoc | src/kmeans.js:69 | one more point is added to its cluster's total only |
| KMeans.TotalColumn | src/kmeans.js:69 | a cluster's total in column t is the sum of column t over its points |
| KMeans.EmptyClusterZero | src/kmeans.js:74-78 | an empty cluster's total and next mean are the zero vector |
| KMeans.MeanTimesSize | src/kmeans.js:75-76 | a non-empty cluster's new mean times its size is its total |
| KMeans.NewMeans | src/kmeans.js:72-79 | one mean per cluster, each of the point width |
| KMeans.Run | src/kmeans.js:52-81 | when the loop converges, the assignment is the nearest-mean assignment of the final means |
| KMeans.CountsSnoc | src/kmeans.js:69-70 | sizes and totals after grouping one more point |
| KMeans.SweepStep | src/kmeans.js:58-71 | one point of the sweep keeps the sweep invariant |
| KMeans.SweepStart | src/kmeans.js:56-57 | before the first point every size is 0, every total the zero vector, and nothing has changed |
| KMeans.SweepEnd | src/kmeans.js:58-71 | at the end of a sweep the assignment, sizes and totals are those of the nearest-mean assignment |
| KMeans.Sweep | src/kmeans.js:53-71 | the sweep assigns every point its nearest mean, reports convergence exactly when nothing changed, and counts and sums each cluster |
| KMeans.UpdateMeans | src/kmeans.js:72-80 | the means become the totals over the sizes, and an empty cluster gets the zero vector |
| KMeans.RunStep | src/kmeans.js:52-81 | one step of the reference loop: stop when nothing changed, otherwise continue from the new means |
| KMeans.Round | src/kmeans.js:52-81 | one outer pass agrees with the reference loop |
| KMeans.Fit | src/kmeans.js:48-81 | the loop started from the first k points gives `Run`'s outcome; on convergence every point's group is its nearest mean |
| Knn.Distances | src/knn.js:51-53 | the distance from the query to every row, in row order |
| Knn.Insert | src/knn.js:54-56 | insertion adds the row and keeps (distance, row) order |
| Knn.SortRows | src/knn.js:54-56 | every row, once, in ascending (distance, row) order |
| Knn.SortedLabels | src/knn.js:54-56 | the sorted labels keep the number of labels |
| Knn.TopLabels | src/knn.js:54-57 | the counted labels are the first k, or all when there are fewer |
| Knn.CountBy | src/knn.js:57 | the counts hold every distinct label once, in order of first appearance, with its number of occurrences |
| Knn.TallyKeysDistinct | src/knn.js:57 | the counted keys are distinct |
| Knn.BumpTally | src/knn.js:57 | counting one more label keeps the tally exact |
| Knn.FirstMax | src/knn.js:58-64 | the first entry with the largest count |
| Knn.Vote | src/knn.js:58-64 | no answer exactly when there are no counts; otherwise the first key with the largest count |
| Knn.FirstMaxWins | src/knn.js:58-64 | the winner is a most frequent label, and the first to appear among equally frequent ones |
| Knn.VoteWins | src/knn.js:58-65 | the label voted is among the counted labels and at least as frequent as any other |
| Knn.Classify | src/knn.js:49-66 | no answer exactly when k is 0 or there are no samples; otherwise a most frequent label among the k nearest |
| Pca.Below | src/pca.js:67-68 | the loop's test at k: the first k values' share of the total is below the variance; with a zero total, true exactly when the leading sum is negative (JavaScript's -Infinity), false for +Infinity and NaN |
| Pca.Required | src/pca.js:64-73 | the loop's answer is in [1, n] and is the first count, from the top, whose share falls below the variance |
| Pca.RequiredStops | src/pca.js:64-73 | the answer's leading values keep at least the required share of the total, unless it is n |
| Pca.RequiredPasses | src/pca.js:64-73 | no smaller count keeps that share |
| Pca.PrefixMonotone | src/pca.js:67 | with non-negative values the leading sums only grow |
| Pca.ShareBelow | src/pca.js:67-68 | a share below the variance is a leading sum below variance times total |
| Pca.StopsAt | src/pca.js:66-70 | where the loop stops, the leading sum reaches the required share |
| Pca.PassesBefore | src/pca.js:66-70 | every shorter leading sum stays below a bound the longer one stays below |
| Pca.Range | src/pca.js:51 | `_.range(c)` is 0 .. c - 1, empty when c <= 0 |
| Pca.Components | src/pca.js:47-55 | an index list is used as given; a count gives 0 .. c - 1; no argument gives every column |
| Pca.Select | src/pca.js:57-61 | each row of U keeps the chosen columns |
| Pca.VecMat | src/pca.js:57 | a row vector times a matrix has the matrix's width |
| Pca.Project | src/pca.js:56-61 | coordinate c of the projection is the vector dotted with column comps[c] of U |
| Neural.WeightCount | src/neural.js:61-64 | the network has inputs times hidden plus hidden plus 1 weights |
| Neural.SliceWithin | src/neural.js:72 | within bounds, `slice` is the subsequence |
| Neural.SliceClamped | src/neural.js:72 | past the end `slice` is clamped, and empty when the end is at or before the start |
| Neural.Drop | src/neural.js:74 | `slice(a)` is everything from a on, or nothing past the end |
| Neural.Rows | src/neural.js:71-73 | `reshape` cuts r rows |
| Neural.Reshape | src/neural.js:67-80 | theta1 is the first matrix's rows cut from theta; theta2 is the second's cut from the rest |
| Neural.FlattenRows | src/neural.js:71-73 | the rows cut from t flatten back to the prefix of t they came from |
| Neural.ReshapeFlatten | src/neural.js:67-80 | flattening the two matrices `reshape` cuts gives the weight vector back |
| Neural.FlattenLength | src/neural.js:110 | r rows of length c flatten to r times c entries |
| Neural.FlattenAt | src/neural.js:110 | entry j of row i lands at i times c plus j |
| Neural.FlatRow | src/neural.js:110 | row i of a flattened matrix is the slice from i times c to i times c plus c |
| Neural.RowsOfFlatten | src/neural.js:67-80 | `reshape` of a flattened matrix cuts the matrix back out |
| Neural.FlattenReshape | src/neural.js:110 | a gradient flattened from two matrices of the network's shape has the weight count, and `reshape` gives both matrices back |
| Neural.ZeroBias | src/neural.js:105-106 | the matrix keeps its number of rows; `ZeroBiasSquares` states what is left of it |
| Neural.Regularize | src/neural.js:108-109 | the regularised gradient keeps its rows |
| Neural.RegularizeEntries | src/neural.js:104-109 | the bias row keeps its back-propagated value; every other entry gains lambda / m times its weight |
| Neural.SumSqAllNonNegative | src/neural.js:96 | the sum of squares of a matrix is never negative |
| Neural.PenaltyNonNegative | src/neural.js:96 | with lambda >= 0 the penalty is never negative, so it never lowers the cost |
| Neural.Penalty | src/neural.js:96 | lambda over 2m times the squares of every weight of both matrices outside their first (bias) row |
| Neural.PenaltySkipsBias | src/neural.js:96 | the penalty skips the same bias rows the gradient's regularisation zeroes |
| Neural.ZeroBiasSquares | src/neural.js:105-106 | a matrix with its bias row zeroed has the squares of its other rows |
| Linreg.Residual | src/linreg.js:59-61 | entry i is sample i's prediction minus its target |
| Linreg.Penalty | src/linreg.js:63 | lambda / 2 / m times the squares of every coefficient but the intercept |
| Linreg.Cost | src/linreg.js:61-63 | the squared errors over 2m plus lambda / 2 / m times the squares of every coefficient but the intercept |
| Linreg.Reg | src/linreg.js:64-65 | the intercept's entry is 0; every other is lambda / m times the coefficient |
| Linreg.TransposeTimes | src/linreg.js:66 | Xᵀe has one entry per column |
| Linreg.Over | src/linreg.js:66 | division by m keeps the length |
| Linreg.Gradient | src/linreg.js:66 | entry j is column j dotted with the errors over m, plus lambda / m times theta[j] except for the intercept |
| Linreg.InitialTheta | src/linreg.js:70 | one zero per column of the first sample |
| Linreg.CostNonNegative | src/linreg.js:61-63 | with lambda >= 0 the cost is never negative |
| Linreg.InterceptFree | src/linreg.js:63-65 | the intercept is never penalised: changing it changes neither the penalty nor the reg vector |
| Linreg.PerfectFit | src/linreg.js:56-68 | without regularisation, coefficients that reproduce the targets cost nothing and have zero gradient |
| Linreg.InitialCost | src/linreg.js:61-70 | at the starting point the cost is the squared targets over 2m, whatever lambda is |
| Linreg.R2Undefined | src/linreg.js:82-86 | when every target is equal, r² is undefined |
| Linreg.R2 | src/linreg.js:82-86 | the regression sum of squares about the mean target over the total sum of squares about it; None where the library divides by zero |
| Linreg.ConstantMean | src/nerdy.js:85-87 | the mean of equal values is that value |
| Linreg.R2Bounds | src/linreg.js:82-86 | a defined r² is never negative, and it is 1 when the predictions reproduce the targets |
| TestReport.Test.constructor | tests/test.js:3-6 | a new test has the title and status 'unknown' |
| TestReport.Test.Untitled | tests/test.js:8-10 | without a title it is 'Untitled' |
| TestReport.Test.SetTitle | tests/test.js:15-18 | the title is set, the status kept, and the test returned |
| TestReport.Test.SetStatus | tests/test.js:23-26 | the status is set, the title kept, and the test returned |
| TestReport.Unit.constructor | tests/test.js:31-35 | a new unit has its name and no tests |
| TestReport.Unit.Assert | tests/test.js:37-42 | a new test 'Assertion' goes last, passing exactly when the truth holds |
| TestReport.Unit.Throws | tests/test.js:44-54 | a new test 'Throws' goes last, passing exactly when the function threw |
| TestReport.Unit.View | tests/test.js:30-54 | the unit's value view keeps its name and its tests in order |
| TestReport.Tests.constructor | tests/test.js:67-79 | a new group has its name and no units or subgroups |
| TestReport.Tests.AddUnit | tests/test.js:81-86 | a fresh unit goes last among the units |
| TestReport.Tests.AddGroup | tests/test.js:88-93 | a fresh group goes last among the subgroups |
| TestReport.UnitReports | tests/test.js:114-124 | one report per unit, in order |
| TestReport.UnitResults | tests/test.js:115-123 | the inner loop builds the unit's report |
| TestReport.Results | tests/test.js:107-133 | the loops build the group's report |
| TestReport.Report | tests/test.js:107-133 | a group's report as written: its units' reports and its subgroups' reports in order, 'fail' exactly when some subgroup's report is not 'pass' |
| TestReport.UnitVerdict | tests/test.js:115-123 | a unit fails exactly when one of its tests did not pass; its tests are reported by title, in order |
| TestReport.GroupVerdict | tests/test.js:125-131 | a group fails exactly when a subgroup's report did not pass; a group without subgroups passes |
| TestReport.GroupAlwaysPasses | tests/test.js:107-133 | as written, every group reports 'pass' |
| TestReport.FailingUnitPassingGroup | tests/test.js:107-133 | a group whose only unit has a failing assertion reports 'pass' |
| TestReport.CorrectedFailsIff | tests/test.js:107-133 | with the correction, a group fails exactly when some test below it did not pass |
| TestReport.ReportOrder | tests/test.js:107-133 | the report keeps the names and the order of units and subgroups |

## Left out

- Numbers are reals: floating-point rounding, `NaN` propagation and overflow are not modelled. A division by zero that gives `NaN` or `Infinity` in JavaScript is `None` in the model, except in `Pca.Below`, where the quotient is only compared and the comparison's outcome is modelled.
- The feature extraction `nerdy.featureSet` (standardisation, intercept column, expansion of each sample) is not part of this model. Every algorithm starts from the feature matrix it returns.
- `nerdy.minimize`, the conjugate-gradient optimiser, is not part of this model. For linear regression and the network, the model covers the cost and gradient handed to it, and the starting point.
- Neural: the feed-forward pass and back-propagation (sigmoid, log loss, the error matrices) use exponentials and logarithms, which reals in Dafny lack. Only the weight layout and the regularisation of cost and gradient are modelled.
- Pca: the covariance matrix and its singular value decomposition come from numeric.js, which is not part of this model. The singular values and U are parameters.
- Random choices are parameters. The SVM partner draws are a stream `pick(iter, i)` given by the caller. The starting weights of the network are not modelled. The `_.shuffle` of k-means is left to the caller, who passes the shuffled matrix.
- Svm.Trainer.Train: the loop `while (j === i)` is modelled separately, as `PickPartner` over a finite stream of draws, because it need not terminate. `Train` takes a partner function that never returns i.
- KMeans.Fit: requires 1 <= k <= |X|. src/kmeans.js:47-59 accepts any k; with k = 0 no point gets a group, and with k > m the initial means read past the data as undefined, which the model does not represent.
- KMeans.Run and KMeans.Fit: the outer loop runs until convergence, which Dafny cannot bound. The reference definition takes at most `fuel` sweeps, and an outcome that has not converged within the fuel is reported as such.
- Expand.ExpandTerms: requires a non-empty vector. On an empty vector the source's loop never ends: `polys[0]` is undefined, so `++polys[0]` gives `NaN`, and `NaN > p` is false. Every round therefore takes the else branch, which sets `index` back to 0 and pushes the term 1, and the `index < m - 1` test that would break the loop is never reached.
- Knn.Classify: `for (var key in counts)` visits integer-like keys in ascending numeric order before the others in JavaScript. The model visits keys in order of first appearance, which is the JavaScript order only for labels that are not integer-like. Labels are also compared as values rather than converted to strings.
- HClust: the average linkage loop uses the formula as written. `AverageLinkCorrected` is proved on its own, so that the loop stays faithful to the source. The `switch` with an unknown linkage string is `Unrecognised` and writes nothing.
- TextParse.SplitLineQuotedField: stated over the line's split into pieces, not over the raw line. `QuotedFieldSplit` gives that split when the plain pieces hold no delimiter. The pieces of the quoted field after its first one hold no quote, so a doubled quote is covered only in the first piece; the same holds for `QuotedFieldRejoined`.
- TextParse.StrayClosingQuote: covers lines whose only quote ends the line. On `"x",b"` the earlier quoted piece is reached by the gluing and absorbs the rest, giving the single column `x",b`; no lemma states that case.
- TextParse: `guessDelimiter` ranks delimiters by the mean and standard deviation of their field counts, which needs square roots. The guessed delimiter is a parameter of `Parse`. `isNumber`, `isDate` and `guessType` are not modelled.
- TextParse: `trim` and the regular expressions use `\s`. The model's whitespace set is the ASCII and common Unicode spaces, not every code point JavaScript counts.
- Linreg.R2Undefined: states only one direction. When the targets are not all equal, the total sum of squares is positive, so r² is defined, but this is not proved.
- The Dataset methods built on `new Function(head, 'return ' + str)` (`select` and `where` with a string) evaluate JavaScript source text and are not modelled. `eachRow`, `each`, `distinct` and the statistics shortcuts are thin wrappers and are not modelled separately.
- Classy.ClassyClass.Subclass: the subclass copies the parent's attributes once, when it is made. In libs/classy.js:157 the subclass prototype is an instance of the parent, so a method the parent defines later is still reached through the prototype chain, and a subclass `method` on such a name adds the overload to the parent's method (libs/classy.js:137-145). The model has no prototype chain and gives the subclass neither.
- Classy: an instance's `__class__` and `__events__` fields, calls without `new`, and the `Classy.module` wrapper are not modelled. The built-in type tests (`_.isNumber` and the like) are a parameter.
- TaskQueue: the 100 ms timer between polls is left to the caller, who calls `Poll` once per tick. A progress event carries the counts done and total instead of their quotient.
- TestReport: the bodies given to `unit` and `group`, `Tests.start`, and `Unit.async` (which hands a job to the task manager) are not modelled. The report is computed from a value snapshot of the group.

## Findings

| source | as written | input that shows it | evidently intended | confidence | as-written member | corrected member |
|---|---|---|---|---|---|---|
| src/nerdy.js:1076-1086 | the subset `init` is registered first and the root `init` without a signature second. `when` puts each new definition in front, and a definition without a signature always matches, so `new Dataset(root, keys)` runs the root constructor | `data.where(fn)` for any dataset and test: the result is a fresh empty root, with count 0 | `where` returns a subset of the same root holding the keys whose records pass the test | not executed | DatasetModel.WhereAsWritten | DatasetModel.WhereCorrected |
| src/hclust.js:91-95 | average linkage weights d(c1, j) by the size of c1 after it absorbed c2, and divides by sizes[c1] + sizes[j] instead of sizes[c1] + sizes[c2] | singletons c1 and c2, both at distance 1 from a cluster j of size 3: the new distance is (2 + 1) / (2 + 3) = 0.6, below both | the size-weighted mean of the two distances, which lies between them | not executed | HClust.AverageLinkExample | HClust.AverageLinkCorrected |
| tests/test.js:107-133 | a group's status starts as 'pass' and only a failing subgroup can change it. A failing unit never does, so no group ever reports 'fail' | a group whose only unit holds one failing assertion reports 'pass' | a group fails when any unit or subgroup below it has a failing test | not executed | TestReport.FailingUnitPassingGroup | TestReport.CorrectedFailsIff |
