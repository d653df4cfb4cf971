# NEB Grade 10 mathematics question generators and router, in Dafny

This project models the core of a small tutoring system for the Nepal Education Board (NEB)
Grade 10 mathematics syllabus. It has two parts.

**Question generators.** Each script draws the parameters of one kind of question. Examples are
simple interest, algebraic fractions, quadratic equations and word problems, probability, and
arithmetic and geometric sequences. The script computes the answer and emits a multiple-choice
(MCQ) record. The record holds the question, four options labelled A–D, the correct option, an
explanation and tags. Some scripts also emit a worked-solution ("solve") record.

**Routing pipeline.**
- It builds a routing dataset from the generators. Each script's questions get its route label.
  Out-of-scope questions come from a fixed bank, some of them lightly reworded, under the label
  "none". The whole list is then shuffled.
- It turns that dataset into chat records for fine-tuning. The label list is sorted with "none"
  last, and the rows are split into train and eval parts.
- At inference, the router builds the prompt and reads a label out of the model's free-text
  answer.
- The arithmetic adapter's test script pulls the first JSON object out of a model reply.
- The sequence-and-series training script turns chat records into single training texts.

**How the model stands in for the program.**
- Every random draw is a parameter of the model. Draws are made by `random.choice`, `randint`,
  `sample`, `random.random` and `shuffle`.
- A draw that the source repeats until a condition holds is a retry loop over those parameters.
- Python floats are exact rationals or integers. On the values the generators draw, their
  arithmetic is exact. The two dataset counts that round a float product are the exception (see
  "## Left out").
- JSON parsing and serialisation are function parameters, because the model does not define them.

Each generator is specified by functions on its drawn parameters. The lemmas prove these facts:
- the correct option holds the computed answer;
- the four options are distinct, and exactly one is correct, exactly when a stated condition on the
  draw holds. Where a draw breaks that promise, the collision is exhibited: for example
  `SimpleInterest.OneYearCollides`, `SequenceSeries.DoublingCollides`, `QuadraticWord.TwoDigit`,
  `Probability.TreeCollision` and `AlgebraicFractions.ThreeTermFactorDenominators`;
- the answer solves the question (a root of the equation, a term of the sequence, a probability
  between 0 and 1);
- the retry guards reject exactly the draws the source rejects.

The routing operations are proved against reference definitions. Examples: the shuffle is a
permutation, the train/eval split partitions the rows, every label written is one the router
accepts, and label extraction returns a valid label.

## Model

| member | source | states |
|---|---|---|
| Router.Normalize | routing/test_router.py:33-34 | the normal form (stripped, lower-cased, whitespace runs made one blank) is never longer than the text |
| Router.NormalizeIsNormal | routing/test_router.py:33-34 | every normalised text has no capitals, no white space at either end, and single blanks as its only white space |
| Router.FirstMatch | routing/test_router.py:35-41 | the position found is the first label from k on that satisfies the test, and none is found exactly when no label does |
| Router.Pick | routing/test_router.py:35-41 | the label picked is a position inside the label list |
| Router.ExtractLabel | routing/test_router.py:32-42 | the reading is always one of the seven route labels or "unknown" |
| Router.PickExact | routing/test_router.py:35-37 | a text equal to a label picks that label |
| Router.PickSubstring | routing/test_router.py:39-42 | a text that is no label picks the first label in list order occurring inside it, and nothing exactly when none occurs |
| Router.UnknownIsNoLabel | routing/test_router.py:7-15 | "unknown" is not one of the labels, so a failed reading cannot be mistaken for a label |
| Router.ExactMatchWins | routing/test_router.py:35-37 | a normalised text that equals a label is read as that label, even when it also contains other labels |
| Router.SubstringFallback | routing/test_router.py:39-42 | any other text is read as the first label in list order that occurs inside its normal form, and as "unknown" exactly when none occurs |
| Router.NormalizePlain | routing/test_router.py:33-34 | a text is its own normal form exactly when it has no capitals, no white space at either end and no white space other than single blanks, so normalising twice is normalising once |
| Router.LabelPlain | routing/test_router.py:7-15 | every route label is non-empty and in normal form |
| Router.LabelIsFixedPoint | routing/test_router.py:32-42 | every route label is read back as itself |
| Router.BuildMessages | routing/test_router.py:17-30 | the messages are exactly a system message and a user message whose content is the stripped question |
| Router.SystemListsLabels | routing/test_router.py:18-25 | the system message names every route label |
| Router.LowerPlain | routing/test_router.py:33 | lower-casing leaves a text exactly when it has no capitals |
| Router.CollapsePlain | routing/test_router.py:34 | collapsing white space leaves a text exactly when its only white space is single blanks |
| JsonExtract.Find | scripts/arithmetic/test_arithmetic_adapter.py:16 | the result is the first position of the character, or −1 exactly when it does not occur |
| JsonExtract.RFind | scripts/arithmetic/test_arithmetic_adapter.py:17 | the result is the last position of the character, or −1 exactly when it does not occur |
| JsonExtract.Candidate | scripts/arithmetic/test_arithmetic_adapter.py:15-21 | there is no candidate exactly when no '{' comes before a '}'; otherwise the candidate starts with '{', ends with '}', and occurs in the text with no '{' before it and no '}' after it |
| JsonExtract.BraceSpan | scripts/arithmetic/test_arithmetic_adapter.py:18-21 | with the first '{' before the last '}', the span between them is unchanged by stripping and is found in the text at the first '{' |
| JsonExtract.NoPairWhenCrossed | scripts/arithmetic/test_arithmetic_adapter.py:18-19 | when either brace is missing or the last '}' is not after the first '{', no '{' precedes any '}' |
| JsonExtract.ExtractJson | scripts/arithmetic/test_arithmetic_adapter.py:10-27 | the braces error is returned exactly when no '{' precedes a '}'; the error is absent exactly on a parsed value, which is what the parser gives the candidate; a parse failure returns the candidate and "JSON parse error: " followed by the parser's message |
| SeriesPrepare.Rendered | scripts/sequence-n-series/prepare_data.py:11-12 | one rendered part per message |
| SeriesPrepare.RenderEnds | scripts/sequence-n-series/prepare_data.py:12 | a rendered message starts with a non-space when its role does, and ends with one when its content does |
| SeriesPrepare.BuildPrompt | scripts/sequence-n-series/prepare_data.py:9-13 | the loop's prompt equals the rendered messages, in order, joined by blank lines and stripped |
| SeriesPrepare.PromptKeepsMessages | scripts/sequence-n-series/prepare_data.py:9-13 | when the first role starts and the last content ends with a non-space, every rendered message (upper-cased role, colon, newline, content) occurs in the prompt in full |
| SeriesPrepare.TrainerText | scripts/sequence-n-series/prepare_data.py:21-25 | a record's training text is its prompt, a blank line, "ASSISTANT:", a newline and the serialised response |
| SeriesPrepare.ConvertedSound | scripts/sequence-n-series/prepare_data.py:15-27 | each written string is the training text of the kept line at its position; the run reports an error exactly when it stops before the last kept line, and the error is that line's parse error |
| SeriesPrepare.WrittenForCons | scripts/sequence-n-series/prepare_data.py:16-27 | a parsed line put in front of lines already matched extends the match by its training text |
| SeriesPrepare.ConvertStep | scripts/sequence-n-series/prepare_data.py:16-25 | from any line on, a blank line writes nothing, an unparsable line stops with its error, and a parsed line puts its training text before the rest |
| SeriesPrepare.ConvertLines | scripts/sequence-n-series/prepare_data.py:15-27 | the loop writes exactly what converting the stripped non-blank lines in order gives, stopping at the first line that does not parse |
| SeriesPrepare.ConvertLinesMeaning | scripts/sequence-n-series/prepare_data.py:15-27 | over the file's lines: one training text per non-blank line, in order, until a line does not parse, and that line's error exactly when the run stops early |
| RoutingPrepare.MakePrompt | routing/prepare_data.py:33-44 | the prompt is exactly the router's system message followed by one user message |
| RoutingPrepare.PromptShows | routing/prepare_data.py:34-40 | the user message begins with "Allowed labels: " and the comma-joined labels, and it contains the question and every allowed label |
| RoutingPrepare.Reshape | routing/prepare_data.py:65-76 | a record's response and meta label are both the raw label stripped and lower-cased; its messages are the prompt over the stripped question; the source chapter and difficulty are carried over |
| RoutingPrepare.CleanLabelIsClean | routing/prepare_data.py:67 | a cleaned label has no capital letter and no white space at either end, and is as long as the stripped label |
| RoutingPrepare.LoadedMeaning | routing/prepare_data.py:23-31 | loading succeeds exactly when every kept line parses, and then gives one row per kept line in order; otherwise the error is that of the first line that does not parse |
| RoutingPrepare.LoadStep | routing/prepare_data.py:26-30 | from any line on, a blank line adds nothing, an unparsable line ends with its error, and a parsed line puts its row before the rest |
| RoutingPrepare.LoadRaw | routing/prepare_data.py:23-31 | the loop returns exactly what loading the stripped non-blank lines in order gives |
| RoutingPrepare.Truncate | routing/prepare_data.py:54-55 | the kept rows are a prefix of the raw rows, max_rows long (or all of them when fewer) when max_rows is positive, and all of them otherwise |
| RoutingPrepare.RawLabels | routing/prepare_data.py:57 | one label per raw row, in row order |
| RoutingPrepare.LabelOrderMeaning | routing/prepare_data.py:57-59 | the label list holds each raw label exactly once, in increasing order except that "none", when some row carries it, comes last |
| RoutingPrepare.PrepareRows | routing/prepare_data.py:61-76 | the shuffle with the given draws and the loop give the records of the shuffled rows, in that order |
| RoutingPrepare.PreparedPermutes | routing/prepare_data.py:62-76 | there is one prepared record per raw row, and they are the records of the raw rows, each exactly once |
| RoutingPrepare.SplitMeaning | routing/prepare_data.py:78-80 | valid followed by train is the prepared list; valid holds max(1, round(len × ratio)) rows, or all when there are fewer, so it is non-empty for non-empty input |
| RoutingPrepare.Prepare | routing/prepare_data.py:46-80 | the run fails exactly when a kept line does not parse; otherwise the labels, train and valid lists are those of the truncated rows, shuffled, reshaped and split |
| Jsonl.StrippedLines | routing/prepare_data.py:27 | one stripped line per input line |
| Jsonl.KeptLine | routing/prepare_data.py:28-29 | a stripped line is kept exactly when it is not empty |
| Jsonl.NonEmptyConcat | routing/prepare_data.py:26-31 | the lines kept from two pieces of a file, one after the other, are the lines kept from the whole |
| Jsonl.NonEmptyFrom | routing/prepare_data.py:26-31 | the lines kept from line n on are what is kept of line n followed by the lines kept after it |
| StrOrder.LessIrreflexive | routing/prepare_data.py:57 | no string is below itself in Python's string order |
| StrOrder.LessTransitive | routing/prepare_data.py:57 | the string order is transitive |
| StrOrder.LessTotal | routing/prepare_data.py:57 | two different strings are ordered one way or the other, never both |
| StrOrder.SortedDistinct | routing/prepare_data.py:57 | a strictly increasing list repeats no string |
| StrOrder.Insert | routing/prepare_data.py:57 | inserting into a sorted list keeps it sorted and adds exactly the new string |
| StrOrder.SortedSet | routing/prepare_data.py:57 | `sorted(set(xs))` is sorted and holds exactly the strings of xs |
| StrOrder.SortedUnique | routing/prepare_data.py:57 | two strictly increasing lists of the same strings are equal, so the sorted listing does not depend on the order the set is visited in |
| StrOrder.Without | routing/prepare_data.py:59 | the filtered list holds exactly the strings other than the one left out |
| StrOrder.WithoutSorted | routing/prepare_data.py:59 | leaving a string out of a sorted list keeps it sorted |
| Jsonl.NonEmpty | routing/prepare_data.py:28-31 | the kept lines are never more than the lines read |
| Jsonl.NonBlankLines | routing/prepare_data.py:26-31 | the stripped non-blank lines are never more than the lines read |
| RoutingGenerate.ScriptsRoutable | routing/question_generator.py:12-30 | each generator script's module key has an entry in LABEL_MAP, and that entry is a label the router can answer with, never "none"; "none" is one of the router's labels too |
| RoutingGenerate.TableScript | routing/question_generator.py:12-30 | the same facts, stated for any script of the table; in addition no module key is "none_bank" |
| RoutingGenerate.QuestionPreferred | routing/question_generator.py:89 | a non-empty question string in the first row's response is the one used |
| RoutingGenerate.QuestionFallback | routing/question_generator.py:91-92 | when the response has no truthy question and the row has a non-empty message list, the content of the last message is used |
| RoutingGenerate.SampleQuestion | routing/question_generator.py:80-102 | extraction succeeds exactly when the call returns a non-empty list whose first row yields a string question; an exception from the call, an empty or non-list result, and a non-string question each give their own error |
| RoutingGenerate.SampleQuestionText | routing/question_generator.py:94-102 | an extracted question neither starts nor ends with white space and stripping it again changes nothing; the metadata holds the first row's chapter, task and difficulty |
| RoutingGenerate.Attempts | routing/question_generator.py:117-124 | the five attempts of one question, each an extraction from the call made for that attempt |
| RoutingGenerate.RetryFromMeaning | routing/question_generator.py:117-127 | from any attempt on, the outcome is a success exactly when one of the remaining attempts succeeds, and otherwise the error of the last attempt |
| RoutingGenerate.RetriedMeaning | routing/question_generator.py:117-127 | a question succeeds exactly when one of its five attempts does; otherwise its error is the fifth attempt's |
| RoutingGenerate.RetryLoop | routing/question_generator.py:117-124 | the loop makes between one and five attempts, every attempt before the last one failed, it stops at the first success, it gives up only after five failures, and its outcome is that of the last attempt it made |
| RoutingGenerate.SampleWithRetry | routing/question_generator.py:112-127 | for one question of one script, the same facts stated in terms of the extractions from the generator calls |
| RoutingGenerate.OkStep | routing/question_generator.py:112-134 | one more successful question extends the run of successful questions of a script |
| RoutingGenerate.DoneScript | routing/question_generator.py:108-134 | a script whose n questions all succeed hands over to the next script |
| RoutingGenerate.KeyRows | routing/question_generator.py:129-134 | one row per successful question of a script |
| RoutingGenerate.KeyRowsCount | routing/question_generator.py:129-134 | a script's rows all carry its label, so they count for that label and no other |
| RoutingGenerate.KeyRowsFrom | routing/question_generator.py:129-134 | every row of a script carries that script's module key as its source and LABEL_MAP's label for it |
| RoutingGenerate.DrawScript | routing/question_generator.py:112-134 | the inner loop succeeds exactly when all n questions of the script succeed, and then gives their rows in order; on failure some question failed after all earlier ones succeeded |
| RoutingGenerate.DrawInScope | routing/question_generator.py:108-134 | the outer loop succeeds exactly when every question of every script succeeds, and then gives the rows script by script; on failure it stopped at the first failing question |
| RoutingGenerate.InScopeLength | routing/question_generator.py:108-134 | k scripts give n rows each |
| RoutingGenerate.InScopeCount | routing/question_generator.py:108-134 | k scripts give n rows of label l for each of them labelled l |
| RoutingGenerate.ScriptRowsPrefix | routing/question_generator.py:108-109 | counting the scripts of a prefix one script longer adds n exactly when that script is labelled l |
| RoutingGenerate.InScopeFrom | routing/question_generator.py:108-134 | every in-scope row comes from one of the scripts, with its key and label |
| RoutingGenerate.RewordedUntouched | routing/question_generator.py:141 | a question holding none of "Find", "What is" and "Explain" is not changed by the rewording |
| RoutingGenerate.RewordedExplain | routing/question_generator.py:141 | a question opening with "Explain" and holding neither other phrase opens with "Briefly explain" once reworded |
| RoutingGenerate.NoneRows | routing/question_generator.py:137-148 | exactly num_none out-of-scope rows |
| RoutingGenerate.NoneRowsCount | routing/question_generator.py:143-148 | the out-of-scope rows all carry the label "none" and no other |
| RoutingGenerate.NoneRowsFrom | routing/question_generator.py:143-148 | every out-of-scope row carries the label "none", the source "none_bank" and the metadata chapter "none", task "route", difficulty 0 |
| RoutingGenerate.NoneBankSize | routing/question_generator.py:32-55 | the bank holds 21 questions |
| RoutingGenerate.AddNoneRows | routing/question_generator.py:137-148 | the loop appends the out-of-scope rows to the in-scope ones, in order |
| RoutingGenerate.ShuffleRows | routing/question_generator.py:150 | the rows are shuffled in place with the draws taken from the random source |
| RoutingGenerate.LabelCountAppend | routing/question_generator.py:129-148 | label counts add up over rows appended one list after another |
| RoutingGenerate.LabelCountOne | routing/question_generator.py:129-148 | a single row counts once, for its own label |
| RoutingGenerate.GeneratedCounts | routing/question_generator.py:104-151 | when every question succeeds, the result holds the in-scope rows plus round(in-scope count × none_ratio) out-of-scope rows, in shuffled order; each label is carried by n rows per script so labelled, plus every out-of-scope row for "none" |
| RoutingGenerate.TableRows | routing/question_generator.py:12-30 | with the script's table, label l is carried by 2n in-scope rows for "quadratic_equations" (two scripts), n for each other chapter label, and none otherwise |
| RoutingGenerate.TableGeneratedCounts | routing/question_generator.py:104-151 | with the script's table there are 7n in-scope rows, each chapter label but the quadratic one has n rows, the quadratic one 2n, and "none" has round(7n × none_ratio) |
| RoutingGenerate.GeneratedFrom | routing/question_generator.py:104-151 | every generated row, whatever the shuffle did, comes from a script of the table or from the bank |
| RoutingGenerate.GeneratedRoutable | routing/question_generator.py:104-151 | every generated row has a label the router can answer with; it is "none" exactly when the row came from the bank, and otherwise it is LABEL_MAP's entry for the row's module key |
| RoutingGenerate.Generate | routing/question_generator.py:104-151 | `generate` succeeds exactly when every question of every script succeeds within five attempts, and then returns the shuffled in-scope and out-of-scope rows; otherwise it fails at the first question whose five attempts all fail |
| RoutingGenerate.GenerateRows | routing/question_generator.py:104-151 | the same, with the script's own table and bank and `random.choice` indices below 21 |
| Shuffle.Swap | routing/question_generator.py:150 | exchanging two items changes only those two positions and keeps the same items |
| Shuffle.Draws | routing/question_generator.py:150 | the draws taken from the random source are each in range for their step |
| Shuffle.ShuffleSteps | routing/question_generator.py:150 | the remaining swaps keep the length and the items |
| Shuffle.Shuffled | routing/question_generator.py:150 | the shuffled list is a rearrangement of the same items, each as often |
| Shuffle.ShuffleStep | routing/question_generator.py:150 | step k of the pass puts the item at the k-th draw into position len-1-k and the item from there into the draw's position, then carries on from step k+1 |
| Shuffle.ShuffleSwap | routing/question_generator.py:150 | the same step, written as an exchange of position len-1-k with the k-th draw |
| Shuffle.ShuffleInPlace | routing/question_generator.py:150 | the in-place pass leaves the array holding the shuffled old contents, a rearrangement of them |
| Shuffle.MapSeq | routing/prepare_data.py:62-76 | transforming every item keeps the order and the length |
| Shuffle.MapSeqAppend | routing/prepare_data.py:62-76 | transforming a concatenation transforms each part |
| Shuffle.MapSwap | routing/prepare_data.py:62-76 | transforming items commutes with one exchange |
| Shuffle.MapSwapFromEnd | routing/prepare_data.py:62-76 | the same, for an exchange counted from the end |
| Shuffle.MapShuffleSteps | routing/prepare_data.py:62-76 | transforming items commutes with the remaining swaps |
| Shuffle.MapShuffled | routing/prepare_data.py:62-76 | shuffling then transforming every row is transforming then shuffling, so the reshaped records are those of the raw rows, each as often |
| SimpleInterest.DrawnTerms | generic-generators/arithmetic.py:81-85 | every drawn principal is a positive whole number of hundreds, the rate and time are positive, and the offset k is positive |
| SimpleInterest.InterestExact | generic-generators/arithmetic.py:83-87 | 100·I = P·R·T exactly, so `int(I)` prints the interest and `round(I)` gives it back |
| SimpleInterest.AskedRecovers | generic-generators/arithmetic.py:91-123 | rearranging the formula and rounding recovers the quantity that was drawn: I, or P = I·100/(R·T), R = I·100/(P·T), T = I·100/(P·R) |
| SimpleInterest.TruncHalf | generic-generators/arithmetic.py:126 | `int(c / 2)` of a non-negative integer c is its integer half |
| SimpleInterest.NumbersCollide | generic-generators/arithmetic.py:125-127 | with answer c ≥ 1 and offset k > 0, option B is max(1, c/2); the answer differs from the three wrong numbers exactly when c ≠ 1, and all four differ exactly when c ≠ 1 and c ≠ k |
| SimpleInterest.AnswerIsOne | generic-generators/arithmetic.py:89-123 | the answer is at least 1; it is 1 exactly when T is asked and T = 1, and it equals the offset k exactly when R is asked and R = k |
| SimpleInterest.Template | generic-generators/arithmetic.py:80-154 | `gen_simple_interest`: option C and the final answer print the true value of the unknown, A prints twice it, B half of it (at least 1), D it plus k; the record keeps "exactly one correct" and distinct options exactly unless T = 1 is asked or R = k is asked |
| SimpleInterest.OneYearCollides | generic-generators/arithmetic.py:117-126 | asking for T = 1 makes options B and C both "1", breaking the promise of exactly one correct option |
| SimpleInterest.RateEqualsOffsetCollides | generic-generators/arithmetic.py:109-127 | asking for R = 5 with offset 5 makes options A and D both "10" |
| Mcq.OptionsDistinct | generic-generators/arithmetic.py:129-134 | a literal option dict has the keys A–D, and its texts are pairwise distinct exactly when the four values are |
| Mcq.OptionsOneCorrect | generic-generators/arithmetic.py:38 | with a literal option dict, "exactly one option is correct" means the marked text differs from the other three |
| Mcq.DistinctHasOneCorrect | generic-generators/arithmetic.py:37-38 | pairwise distinct options have exactly one correct key, whichever key is marked |
| Mcq.Ints4 | generic-generators/arithmetic.py:129-134 | four option texts of one single-number template differ exactly when the numbers do |
| Mcq.Pairs4 | generic-generators/quadratic-equations.py:287-297 | four option texts of one two-number template differ exactly when the number pairs do |
| Mcq.Rationales | generic-generators/arithmetic.py:136-140 | a `distractor_rationales` literal is keyed by exactly the three keys other than the correct one |
| Mcq.FixedRecord | generic-generators/arithmetic.py:24-53 | `mcq_row` with a literal option dict, a fixed correct key and rationales for the others is well formed, shows the keyed text as correct, and has distinct options exactly when the four texts differ |
| Mcq.FixedRowsOk | generic-generators/arithmetic.py:24-71 | with four distinct texts and the solve record answering the keyed one, `mcq_row` and `solve_row` keep every promise of the prompt |
| Mcq.IntRows | generic-generators/arithmetic.py:24-71 | the records of a template whose options print four integers: well formed, the keyed number shown as correct, one correct answer exactly when the keyed number differs from the others, distinct options exactly when all four differ |
| PyNum.RoundHalfEven | generic-generators/arithmetic.py:123 | Python's `round` gives an integer within one half of x, the even one on a tie |
| PyNum.RoundOfInt | generic-generators/arithmetic.py:123 | rounding an integer gives it back |
| PyNum.RoundNearest | generic-generators/arithmetic.py:123 | an integer nearer than one half to x is what `round` gives |
| PyNum.RoundBetween | routing/prepare_data.py:78 | a value more than one half inside (lo, hi) rounds to an integer strictly inside |
| PyNum.RoundDivIsRound | routing/prepare_data.py:78 | the integer rounding of n/d is `round` of the exact quotient |
| PyNum.DivMonotone | routing/prepare_data.py:78 | dividing by a positive number keeps the order |
| PyNum.RoundDivExact | generic-generators/arithmetic.py:123 | an exact quotient rounds to itself |
| PyNum.RoundDivBounds | routing/question_generator.py:136 | the rounded quotient r satisfies abs(n − d·r) ≤ d/2 |
| PyNum.RoundDivNear | routing/question_generator.py:136 | a quotient less than one half from q rounds to q |
| PyNum.RoundDivBelow | routing/question_generator.py:136 | a quotient within one below q rounds to q − 1 or q |
| PyNum.Trunc | generic-generators/arithmetic.py:126 | `int(x)` truncates toward zero |
| PyNum.PowPositive | generic-generators/sequence-n-series.py:217-218 | powers of a positive base are positive |
| PyNum.PowGrows | generic-generators/sequence-n-series.py:171-172 | powers of a base of at least 2 at least double with each step and exceed the exponent |
| QuadraticWord.KeyOf | generic-generators/quadratic-equation-word.py:81 | the key found for a text holds that text, and no earlier key in A–D order does |
| QuadraticWord.MakeMcqOptions | generic-generators/quadratic-equation-word.py:71-82 | `make_mcq_options` gives a dict with exactly the keys A–D whose texts are a rearrangement of the three wrong texts and the correct one, and the key it returns is the first key holding the correct text |
| QuadraticWord.MakeMcqOptionsInPlace | generic-generators/quadratic-equation-word.py:71-82 | the in-place shuffle of the list followed by the dict comprehension and the lookup gives the same dict and key |
| QuadraticWord.OptionsFrom | generic-generators/quadratic-equation-word.py:80-81 | keys A–D are given to the four texts in list order, and the key returned is the first one holding the correct text |
| QuadraticWord.DistractorMap | generic-generators/quadratic-equation-word.py:133-137 | the rationale dict literal is keyed by the three looked-up keys; a repeated key keeps the last tag |
| QuadraticWord.RepeatedKeys | generic-generators/quadratic-equation-word.py:133-137 | two equal wrong texts look up the same key, so the rationale dict has only two keys |
| QuadraticWord.WordRows | generic-generators/quadratic-equation-word.py:23-82 | the two records of a word problem: the options are the shuffled texts under A–D, the key returned is marked correct and holds the correct text |
| QuadraticWord.Distinct4Multiset | generic-generators/quadratic-equation-word.py:78-80 | four texts are pairwise distinct exactly when none occurs twice |
| QuadraticWord.Distinct4Permutation | generic-generators/quadratic-equation-word.py:79 | shuffling four texts keeps them distinct or not distinct |
| QuadraticWord.MakeMcqOptionsDistinct | generic-generators/quadratic-equation-word.py:71-82 | the shuffled options are pairwise distinct exactly when the four texts are |
| QuadraticWord.MakeMcqOptionsOneCorrect | generic-generators/quadratic-equation-word.py:71-82 | the correct text is under no other key exactly when it is none of the wrong texts |
| QuadraticWord.OneCorrectSeq | generic-generators/quadratic-equation-word.py:80 | "exactly one correct" read off the four texts in key order |
| QuadraticWord.OtherKeyHoldsWrong | generic-generators/quadratic-equation-word.py:78-80 | with distinct texts, every key other than the correct one holds a wrong text |
| QuadraticWord.OtherKeyIsLookup | generic-generators/quadratic-equation-word.py:133-137 | with distinct texts, every key other than the correct one is the key looked up for some wrong text |
| QuadraticWord.DistinctCoversKeys | generic-generators/quadratic-equation-word.py:133-137 | four distinct texts put the three wrong ones under exactly the keys other than the correct one |
| QuadraticWord.KeysCoverDistinct | generic-generators/quadratic-equation-word.py:133-137 | conversely, rationale keys that are all keys but the correct one come from four distinct texts |
| QuadraticWord.DistractorKeys | generic-generators/quadratic-equation-word.py:131-137 | the rationale dict covers exactly the three non-correct keys exactly when the four texts are pairwise distinct |
| QuadraticWord.WordRowsMcq | generic-generators/quadratic-equation-word.py:131-140 | a word problem's record is well formed and has distinct options exactly when its four texts are distinct, and has one correct option exactly when the correct text is none of the wrong ones |
| QuadraticWord.WordRowsOk | generic-generators/quadratic-equation-word.py:131-145 | four distinct texts give a record meeting every promise of its prompt, carrying the question, the correct text, the given data and the final answer passed in |
| QuadraticWord.WordRowsOkParts | generic-generators/quadratic-equation-word.py:131-145 | the question, correct text, given data and answer passed in are the ones the records carry |
| QuadraticWord.WordRowsRepeatedWrong | generic-generators/quadratic-equation-word.py:131-140 | two equal wrong texts keep one correct option but lose a rationale key and the distinctness of the options |
| QuadraticWord.EvenUp | generic-generators/quadratic-equation-word.py:94-96 | the adjusted x is even and is the draw or one more |
| QuadraticWord.ConsecutiveNumbers | generic-generators/quadratic-equation-word.py:89-147 | `gen_consecutive_numbers` gives a well-formed record with one correct option and distinct options in either mode |
| QuadraticWord.ConsecutiveEven | generic-generators/quadratic-equation-word.py:93-103 | in the "even" mode x is even with 4 ≤ x ≤ 12, the question states the product x(x+2), and the answer is "x and x+2", also the final answer |
| QuadraticWord.EvenPair | generic-generators/quadratic-equation-word.py:97-103 | the records of the even mode once x is even, with the answer "x and x+2" |
| QuadraticWord.ConsecutiveNatural | generic-generators/quadratic-equation-word.py:113-121 | in the "natural" mode the answer is "x and x+1" and the options are distinct |
| QuadraticWord.ConsecutiveRoot | generic-generators/quadratic-equation-word.py:97-117 | the offered pair is the only positive pair with that gap and that product |
| QuadraticWord.SumProduct | generic-generators/quadratic-equation-word.py:154-192 | `gen_sum_product`: the answer prints min(a,b) and max(a,b), and the record is well formed with distinct options |
| QuadraticWord.SumProductRows | generic-generators/quadratic-equation-word.py:157-191 | the records for sum S and product P |
| QuadraticWord.AgeProblem | generic-generators/quadratic-equation-word.py:199-241 | `gen_age_problem`: the question states the past product of the ages, the answer is "years years ago", and the options are distinct in both branches of wrong2 |
| QuadraticWord.AgeRows | generic-generators/quadratic-equation-word.py:212-240 | the records once the product of the past ages is known |
| QuadraticWord.AgeRoot | generic-generators/quadratic-equation-word.py:201-205 | while the son is alive, the ages multiply to the asked product only at t = years |
| QuadraticWord.Reciprocal | generic-generators/quadratic-equation-word.py:248-287 | `gen_reciprocal`: the answer is "x and x+1" and the options are distinct |
| QuadraticWord.ReciprocalSum | generic-generators/quadratic-equation-word.py:250-256 | 1/x + 1/(x+1) = (2x+1)/(x(x+1)), the fraction the question states |
| QuadraticWord.TwoDigit | generic-generators/quadratic-equation-word.py:294-342 | `gen_two_digit`: ones = tens + 3 is a digit, number + 27 is the reversed number, so "added 27" repeats the reversal distractor on every draw: one correct option remains but the rationale dict has two keys and the options are not distinct |
| QuadraticWord.DigitProductSmaller | generic-generators/quadratic-equation-word.py:300-302 | the digit product is below the number, so the two never print alike |
| QuadraticWord.TwoDigitRows | generic-generators/quadratic-equation-word.py:304-341 | the records for the digits and their product |
| QuadraticWord.Triple | generic-generators/quadratic-equation-word.py:353-360 | each listed triple has legs a < b and a² + b² = c² |
| QuadraticWord.Triangle | generic-generators/quadratic-equation-word.py:349-396 | `gen_triangle`: the question states c and diff = b − a, the answer prints the two legs, and the options are distinct |
| QuadraticWord.TriangleRoot | generic-generators/quadratic-equation-word.py:353-368 | the smaller leg is the only positive root of x² + (x + diff)² = c² |
| QuadraticWord.Rectangle | generic-generators/quadratic-equation-word.py:407 | every listed rectangle has breadth below length |
| QuadraticWord.Percent | generic-generators/quadratic-equation-word.py:411 | `int(round((n/d)·100))` is within one half of the exact percentage |
| QuadraticWord.PercentIs | generic-generators/quadratic-equation-word.py:411 | an integer within one half of the exact percentage is what it rounds to |
| QuadraticWord.PercentTie | generic-generators/quadratic-equation-word.py:411 | 15/40 of a hundred, 37.5, rounds to the even 38 |
| QuadraticWord.RectanglePercents | generic-generators/quadratic-equation-word.py:411-420 | the correct percentage and the three wrong numbers for each rectangle |
| QuadraticWord.RectangleOptionsDistinct | generic-generators/quadratic-equation-word.py:417-420 | for every rectangle the four numbers differ |
| QuadraticWord.RectangleSquare | generic-generators/quadratic-equation-word.py:403-449 | `gen_rectangle_square`: the question states area and perimeter, the answer is the rounded reduction percentage, and the options are distinct |
| QuadraticWord.RectangleRows | generic-generators/quadratic-equation-word.py:417-448 | the records for a correct percentage and three different wrong numbers |
| QuadraticWord.RectangleRoots | generic-generators/quadratic-equation-word.py:407-410 | length and breadth are exactly the roots of x² − (perimeter/2)x + area = 0 |
| QuadraticWord.FirstAccepted | generic-generators/quadratic-equation-word.py:462-469 | the loop stops at the first draw that passes the test, every earlier draw having failed it |
| QuadraticWord.Picnic | generic-generators/quadratic-equation-word.py:456-510 | `gen_picnic` tries the draws in order and builds the records from the first accepted one; it returns nothing only when every given draw fails |
| QuadraticWord.PicnicIncrease | generic-generators/quadratic-equation-word.py:462-469 | on exit inc is a whole number above 100 and T = (x − 5)(per + inc), so T/(x − 5) = T/x + inc |
| QuadraticWord.PicnicRows | generic-generators/quadratic-equation-word.py:471-509 | the records of an accepted draw answer "x−5 students", with distinct options |
| QuadraticWord.PicnicText | generic-generators/quadratic-equation-word.py:471-509 | the records for a budget and an increase |
| QuadraticWord.ShareAfterAbsence | generic-generators/quadratic-equation-word.py:459-466 | a budget that splits evenly after five are absent satisfies T/(x−5) = T/x + increase over the rationals |
| QuadraticWord.FutureProduct | generic-generators/quadratic-equation-word.py:517-556 | `gen_future_product`: the answer is "years years" and the options are distinct in both branches of wrong2 |
| QuadraticWord.FutureRows | generic-generators/quadratic-equation-word.py:528-555 | the records for the target product |
| QuadraticWord.FutureRoot | generic-generators/quadratic-equation-word.py:519-526 | the ages multiply to the target only after exactly `years` years |
| QuadraticWord.DifferenceSquares | generic-generators/quadratic-equation-word.py:563-601 | `gen_difference_squares`: the answer is "x and x+2" and the options are distinct |
| QuadraticWord.DifferenceRows | generic-generators/quadratic-equation-word.py:567-600 | the records for the difference of squares 4x + 4 |
| QuadraticWord.DifferenceRoot | generic-generators/quadratic-equation-word.py:565-571 | (t+2)² − t² = 4t + 4, so exactly one smaller number meets the stated difference |
| QuadraticEquations.RecordsOk | generic-generators/quadratic-equations.py:24-72 | four distinct texts give records with exactly one correct answer, C, and rationales keyed A, B and D |
| QuadraticEquations.SimpleFactorization | generic-generators/quadratic-equations.py:75-106 | `gen_simple_factorization` keeps every promise with C correct; the question prints b = r1 + r2 and c = r1·r2 and the answer prints −r1 and −r2 |
| QuadraticEquations.SimpleRows | generic-generators/quadratic-equations.py:79-105 | the records once b and c are known |
| QuadraticEquations.SimpleRoots | generic-generators/quadratic-equations.py:77-81 | x² + (r1+r2)x + r1·r2 = 0 holds exactly at −r1 and −r2 |
| QuadraticEquations.GeneralFactorization | generic-generators/quadratic-equations.py:112-147 | `gen_general_factorization` keeps every promise with C correct; the question prints a, a(r1+r2), a·r1·r2 and the answer −r1 and −r2 |
| QuadraticEquations.GeneralRows | generic-generators/quadratic-equations.py:117-146 | the records once b and c are known |
| QuadraticEquations.GeneralExpansion | generic-generators/quadratic-equations.py:114-121 | a(x + r1)(x + r2) expands to ax² + a(r1+r2)x + a·r1·r2 |
| QuadraticEquations.GeneralRoots | generic-generators/quadratic-equations.py:114-121 | for a ≠ 0 that quadratic is zero exactly at −r1 and −r2 |
| QuadraticEquations.CompletingSquare | generic-generators/quadratic-equations.py:153-186 | `gen_completing_square` keeps every promise with C correct, and the answer prints r1 and r2, the roots of x² − (r1+r2)x + r1·r2 |
| QuadraticEquations.CompletingRows | generic-generators/quadratic-equations.py:156-185 | the records once b and c are known |
| QuadraticEquations.FormulaAccepted | generic-generators/quadratic-equations.py:198-200 | the retry settles on the first draw with d > 0, every earlier draw having d ≤ 0, and settles on none exactly when every given draw has d ≤ 0 |
| QuadraticEquations.QuadraticFormula | generic-generators/quadratic-equations.py:192-204 | any setup `gen_quadratic_formula` goes on with has d = b² − 4ac > 0, comes from one of the draws within the drawn ranges, and its question prints a, b and c |
| QuadraticEquations.Nature | generic-generators/quadratic-equations.py:246-251 | the nature is one of the three texts |
| QuadraticEquations.NatureKeyOf | generic-generators/quadratic-equations.py:246-266 | the correct key is B for d > 0, A for d = 0 and C for d < 0 |
| QuadraticEquations.NatureAnswer | generic-generators/quadratic-equations.py:255-266 | the keyed option is the nature with its first letter capitalised |
| QuadraticEquations.NatureOptionsDistinct | generic-generators/quadratic-equations.py:255-260 | the four fixed answers differ |
| QuadraticEquations.NatureOfRoots | generic-generators/quadratic-equations.py:238-279 | `gen_nature_of_roots`: B is correct iff d > 0, A iff d = 0, C iff d < 0, D never; the rationale dict is empty, so the record lacks the promised rationales, though its options are distinct |
| QuadraticEquations.NatureRows | generic-generators/quadratic-equations.py:244-279 | the records once d is known |
| QuadraticEquations.SumNotProduct | generic-generators/quadratic-equations.py:287-297 | two distinct positive integers never have a sum equal to their product |
| QuadraticEquations.FormEquation | generic-generators/quadratic-equations.py:285-317 | `gen_form_equation` keeps every promise with C correct, and the answer prints x² − (r1+r2)x + r1·r2 = 0 |
| QuadraticEquations.FormRows | generic-generators/quadratic-equations.py:288-315 | the records once the sum and the product are known |
| QuadraticEquations.FormDistinct | generic-generators/quadratic-equations.py:291-297 | the four printed equations differ whenever the sum and the product do |
| QuadraticEquations.SignAt | generic-generators/quadratic-equations.py:291-297 | the character after "x² " is the sign the template printed |
| QuadraticEquations.PerfectSquare | generic-generators/quadratic-equations.py:323-353 | `gen_perfect_square` keeps every promise with C correct; the question prints a², the answer "x = ±a" and option B −a |
| QuadraticEquations.PerfectRows | generic-generators/quadratic-equations.py:326-352 | the records once a² is known |
| QuadraticEquations.MinusPrinted | generic-generators/quadratic-equations.py:330-332 | `f"x = -{a}"` for a positive a prints −a |
| QuadraticEquations.PlusMinusDiffers | generic-generators/quadratic-equations.py:328-333 | "x = ±a" is never a printed single number |
| AlgebraicFractions.RecordsOk | generic-generators/algebraic-fractions.py:20-63 | four distinct texts give records with exactly one correct answer, C, and rationales keyed A, B and D |
| AlgebraicFractions.DivIs | generic-generators/algebraic-fractions.py:66-98 | p/q is r when q ≠ 0 and p = r·q |
| AlgebraicFractions.CancelCommon | generic-generators/algebraic-fractions.py:439-474 | a common non-zero factor cancels from a quotient |
| AlgebraicFractions.AddOver | generic-generators/algebraic-fractions.py:205-238 | quotients over one non-zero denominator add numerator to numerator |
| AlgebraicFractions.SubOver | generic-generators/algebraic-fractions.py:346-382 | quotients over one non-zero denominator subtract numerator from numerator |
| AlgebraicFractions.DiffSquaresFraction | generic-generators/algebraic-fractions.py:66-98 | `gen_diff_squares_fraction` keeps every promise with C correct; the question prints a² and a, and the answer is "x + a" |
| AlgebraicFractions.DiffSquaresOver | generic-generators/algebraic-fractions.py:171-203 | x² − y² = (x − y)(x + y), so (x² − y²)/(x + y) = x − y wherever x + y ≠ 0 |
| AlgebraicFractions.DiffSquaresQuotient | generic-generators/algebraic-fractions.py:70-86 | (x² − a²)/(x − a) = x + a wherever x ≠ a |
| AlgebraicFractions.PerfectSquareFraction | generic-generators/algebraic-fractions.py:100-132 | `gen_perfect_square_fraction` keeps every promise with C correct, and the answer is "x + a" |
| AlgebraicFractions.PerfectSquareQuotient | generic-generators/algebraic-fractions.py:104-120 | x² + 2ax + a² = (x + a)², so dividing by x + a leaves x + a wherever x ≠ −a |
| AlgebraicFractions.FractionMultiplication | generic-generators/algebraic-fractions.py:134-167 | `gen_fraction_multiplication`: the answer is "b/a"; the record has one correct option and distinct options exactly when a ≠ b, and for a = b option B repeats the answer |
| AlgebraicFractions.MultiplicationTexts | generic-generators/algebraic-fractions.py:138-145 | of the four printed answers only "a/b" and "b/a" can coincide, and they do exactly when a = b |
| AlgebraicFractions.XAfterFirst | generic-generators/algebraic-fractions.py:138-145 | "bx/a" is never "b/a" followed by anything |
| AlgebraicFractions.FractionProduct | generic-generators/algebraic-fractions.py:134-145 | (x/a)·(b/x) = b/a wherever x ≠ 0 |
| AlgebraicFractions.HiddenCommonFactor | generic-generators/algebraic-fractions.py:439-474 | `gen_hidden_common_factor` with a ≠ b, as `random.sample` guarantees, keeps every promise; the answer is "(x + a)/(x + b)" |
| AlgebraicFractions.HiddenFactor | generic-generators/algebraic-fractions.py:441-448 | (x² + ax)/(x² + bx) = (x + a)/(x + b) wherever x ≠ 0 and x ≠ −b |
| AlgebraicFractions.DiffSquaresTwoVariable | generic-generators/algebraic-fractions.py:171-203 | `gen_diff_squares_two_variable` keeps every promise and answers "x - y" |
| AlgebraicFractions.SumConjugateFractions | generic-generators/algebraic-fractions.py:205-238 | `gen_sum_conjugate_fractions` keeps every promise and answers "2(x^2 + y^2)/(x^2 - y^2)" |
| AlgebraicFractions.ConjugateProduct | generic-generators/algebraic-fractions.py:205-238 | (x + y)(x − y) = x² − y², which is non-zero wherever x ≠ ±y |
| AlgebraicFractions.SquaresOfConjugates | generic-generators/algebraic-fractions.py:226-229 | (x + y)² + (x − y)² = 2(x² + y²) |
| AlgebraicFractions.SumConjugates | generic-generators/algebraic-fractions.py:205-238 | (x + y)/(x − y) + (x − y)/(x + y) = 2(x² + y²)/(x² − y²) wherever x ≠ ±y |
| AlgebraicFractions.DifferenceUnitFractions | generic-generators/algebraic-fractions.py:240-272 | `gen_difference_unit_fractions` keeps every promise and answers "2y/(x^2 - y^2)" |
| AlgebraicFractions.UnitDifference | generic-generators/algebraic-fractions.py:240-272 | 1/(x − y) − 1/(x + y) = 2y/(x² − y²) wherever x ≠ ±y |
| AlgebraicFractions.CubicIdentitySum | generic-generators/algebraic-fractions.py:274-308 | `gen_cubic_identity_sum` keeps every promise and answers "2a" |
| AlgebraicFractions.CubicDenominatorsPositive | generic-generators/algebraic-fractions.py:274-308 | a² − a + 1 and a² + a + 1 are positive for every real a |
| AlgebraicFractions.CubicSum | generic-generators/algebraic-fractions.py:295-299 | a³ + 1 = (a + 1)(a² − a + 1) and a³ − 1 = (a − 1)(a² + a + 1), so the sum is 2a for every real a |
| AlgebraicFractions.ConjugateMixedExpression | generic-generators/algebraic-fractions.py:310-344 | `gen_conjugate_mixed_expression` keeps every promise and answers "4xy/(4x^2 - y^2)" |
| AlgebraicFractions.ConjugateMixed | generic-generators/algebraic-fractions.py:310-344 | (4x² + y²)/(4x² − y²) − (2x − y)/(2x + y) = 4xy/(4x² − y²) wherever 2x ≠ ±y |
| AlgebraicFractions.SimplifiesToZero | generic-generators/algebraic-fractions.py:346-382 | `gen_simplifies_to_zero` keeps every promise and answers "0" |
| AlgebraicFractions.ZeroSum | generic-generators/algebraic-fractions.py:346-382 | over a common non-zero denominator the three numerators cancel to 0 |
| AlgebraicFractions.ThreeTermFactorDenominators | generic-generators/algebraic-fractions.py:384-437 | `gen_three_term_factor_denominators`: after the overwrite option C holds "3(a - 5)/((a - 3)(a - 6))", which option B already holds, so the record names C correct while B carries the same text and breaks "exactly one correct" |
| AlgebraicFractions.OverwrittenRows | generic-generators/algebraic-fractions.py:398-437 | overwriting slot C with the text option B holds leaves two options with the correct text |
| AlgebraicFractions.ThreeTermFactorizations | generic-generators/algebraic-fractions.py:412-415 | the three denominators factor as (a − 1)(a − 3), (a − 2)(a − 6) and (a − 3)(a − 5) |
| AlgebraicFractions.ThreeTermSum | generic-generators/algebraic-fractions.py:416-424 | after cancelling, the sum is 3(a − 5)/((a − 3)(a − 6)) wherever no denominator vanishes |
| AlgebraicFractions.CancelFactor | generic-generators/algebraic-fractions.py:417-419 | (a − r)/((a − r)(a − s)) = 1/(a − s) for a ≠ r, s |
| AlgebraicFractions.PartialSum | generic-generators/algebraic-fractions.py:420-424 | 1/(a − 3) + 1/(a − 6) + 1/(a − 3) = 3(a − 5)/((a − 3)(a − 6)) for a ≠ 3, 6 |
| AlgebraicFractions.RPowAdd | generic-generators/algebraic-fractions.py:476-511 | x^(i+j) = x^i·x^j |
| AlgebraicFractions.RPowNonZero | generic-generators/algebraic-fractions.py:476-511 | a non-zero base has non-zero powers |
| AlgebraicFractions.PowerCancellation | generic-generators/algebraic-fractions.py:476-511 | `gen_power_cancellation` keeps every promise and answers "x^3/y^3", that is x^(m−p)/y^(q−n) |
| AlgebraicFractions.PowerTexts | generic-generators/algebraic-fractions.py:476-511 | the four printed answers for the fixed exponents |
| AlgebraicFractions.PowerQuotient | generic-generators/algebraic-fractions.py:476-511 | x^(p+r)·y^n/(x^p·y^(n+s)) = x^r/y^s for non-zero x and y |
| AlgebraicFractions.CancelPowers | generic-generators/algebraic-fractions.py:476-511 | x^m·y^n/(x^p·y^q) = x^r/y^s when x^m = x^p·x^r and y^q = y^n·y^s |
| AlgebraicFractions.ComplexFractionDivision | generic-generators/algebraic-fractions.py:513-545 | `gen_complex_fraction_division` keeps every promise and answers "x/(x+2)" |
| AlgebraicFractions.ComplexDivision | generic-generators/algebraic-fractions.py:513-545 | (x/(x+1))/((x+2)/(x+1)) = x/(x+2) wherever x ≠ −1, −2 |
| AlgebraicFractions.NumericAlgebraicMix | generic-generators/algebraic-fractions.py:547-578 | `gen_numeric_algebraic_mix` keeps every promise and answers "2x/3" |
| AlgebraicFractions.NumericMix | generic-generators/algebraic-fractions.py:547-578 | 6x²/(9x) = 2x/3 wherever x ≠ 0 |
| AlgebraicFractions.IdentityDifferenceOfSquares | generic-generators/algebraic-fractions.py:580-612 | `gen_identity_difference_of_squares` keeps every promise and answers "1" |
| AlgebraicFractions.IdentityDiffSquares | generic-generators/algebraic-fractions.py:580-612 | ((x + y)² − (x − y)²)/(4xy) = 1 wherever xy ≠ 0 |
| AlgebraicFractions.ParameterizedFraction | generic-generators/algebraic-fractions.py:614-647 | `gen_parameterized_fraction` keeps every promise and answers "a/b" |
| AlgebraicFractions.Parameterized | generic-generators/algebraic-fractions.py:614-647 | (ax + ay)/(bx + by) = a/b wherever b ≠ 0 and x + y ≠ 0 |
| Probability.Records | generic-generators/probability.py:24-72 | the records of a template with a literal option dict: well formed, the keyed text marked correct and given as the final answer |
| Probability.PrintedPairs | generic-generators/probability.py:21-22 | among four printed fractions, two texts agree exactly when the reduced fractions do |
| Probability.ScaleEq | generic-generators/probability.py:80-87 | a positive factor cancels from both sides of an equation |
| Probability.MulLess | generic-generators/probability.py:202-206 | a positive factor keeps a strict order |
| Probability.MutuallyExclusive | generic-generators/probability.py:74-113 | `gen_mutually_exclusive`: the answer (a+b)/total is marked C, is at most 1 since a, b ≤ total/2, and is the final answer |
| Probability.ExclusiveOptions | generic-generators/probability.py:76-94 | the answer is the only option with its text; the four options are distinct exactly when a ≠ b, and when a = b options A and B print alike |
| Probability.ExclusiveTexts | generic-generators/probability.py:85-94 | the comparisons of `ExclusiveFracs` hold for the printed texts |
| Probability.ExclusiveFracs | generic-generators/probability.py:80-87 | a/total and b/total agree exactly when a = b, and no other two of the four values agree |
| Probability.ExclusiveCross | generic-generators/probability.py:80-87 | the cross products behind those comparisons |
| Probability.AdditionLaw | generic-generators/probability.py:115-154 | `gen_addition_law`: the answer (a+b−both)/50 is marked C and lies strictly between 0 and 1, and distractor D is both/50 |
| Probability.AdditionOptions | generic-generators/probability.py:115-154 | every draw gives four distinct texts, so the record keeps all its promises |
| Probability.AdditionTexts | generic-generators/probability.py:122-128 | the four counts over 50 print as four different fractions |
| Probability.SameDenominator | generic-generators/probability.py:122-128 | over the denominator 50, two counts give the same fraction exactly when they are equal |
| Probability.BagFracs | generic-generators/probability.py:162-168 | of red/t, red²/t², red(red−1)/(t(t−1)) and 1/t, the first four comparisons never hold; red²/t² = 1/t exactly when red² = t, and red(red−1)/(t(t−1)) = 1/t exactly when red(red−1) = t − 1 |
| Probability.BagCrossUnequal | generic-generators/probability.py:162-168 | the cross products behind the four inequalities |
| Probability.BagCrossEqual | generic-generators/probability.py:162-168 | the cross products behind the two equivalences |
| Probability.SingleBelowSquare | generic-generators/probability.py:162-166 | red/t differs from red²/t² when 0 < red < t |
| Probability.SingleBelowPairs | generic-generators/probability.py:166-167 | red/t differs from red(red−1)/(t(t−1)) when 0 < red < t |
| Probability.DependentBelowIndependent | generic-generators/probability.py:202-206 | drawing without replacement is less likely: red(red−1)/(t(t−1)) < red²/t² whenever 0 < red < t |
| Probability.SquareIsTotal | generic-generators/probability.py:157-168 | among the draws, red² equals the number of balls only for 3 red and 6 blue |
| Probability.PairsIsTotal | generic-generators/probability.py:157-168 | among the draws, red(red−1) equals the number of balls less one only for 3 red and 4 blue |
| Probability.Independent | generic-generators/probability.py:156-194 | `gen_independent`: the answer red²/total² is marked B and is the final answer |
| Probability.IndependentFracs | generic-generators/probability.py:162-168 | the answer equals distractor D (1/total) exactly when red = 3 and blue = 6, C equals D exactly when red = 3 and blue = 4, and no other two values ever agree |
| Probability.IndependentTexts | generic-generators/probability.py:162-175 | the same comparisons for the printed texts |
| Probability.IndependentOneCorrect | generic-generators/probability.py:156-194 | the record has exactly one correct option unless red = 3 and blue = 6 |
| Probability.IndependentDistinct | generic-generators/probability.py:156-194 | the four options are distinct unless red = 3 and blue is 4 or 6 |
| Probability.Dependent | generic-generators/probability.py:196-233 | `gen_dependent`: the answer red(red−1)/(total(total−1)) is marked C and is the final answer |
| Probability.DependentFracs | generic-generators/probability.py:202-208 | the four values differ on every draw |
| Probability.DependentTexts | generic-generators/probability.py:202-215 | the same for the printed texts |
| Probability.DependentOptions | generic-generators/probability.py:196-233 | every draw gives four distinct texts, so the record keeps all its promises |
| Probability.Tree | generic-generators/probability.py:235-274 | `gen_tree`: the answer boys·girls/(t(t−1)) is marked B and is the final answer |
| Probability.TreeCollision | generic-generators/probability.py:241-252 | distractor C equals the answer on every draw, so the record never has exactly one correct option nor four distinct ones, while distractor A differs from the answer |
| Probability.TreeTexts | generic-generators/probability.py:241-252 | girls/t × boys/(t−1) prints as boys/t × girls/(t−1), and boys/t × girls/t does not |
| Probability.TreeWhole | generic-generators/probability.py:247-253 | distractor D, (boys+girls)/total, prints "1/1" |
| Probability.TreeReplacement | generic-generators/probability.py:245 | keeping the denominator t for the second draw changes a positive value |
| Probability.WholeIsOne | generic-generators/probability.py:247 | t/t reduces to 1/1 |
| Probability.OneOverOne | generic-generators/probability.py:21-22 | the whole prints as "1/1" |
| SequenceSeries.ArithmeticTermClosed | generic-generators/sequence-n-series.py:81 | the nth term of the arithmetic sequence, defined by adding d n − 1 times, is a + (n − 1)d |
| SequenceSeries.ArithmeticSeriesClosed | generic-generators/sequence-n-series.py:81-84 | twice the sum of the first n terms is n(2a + (n − 1)d) |
| SequenceSeries.GeometricTermClosed | generic-generators/sequence-n-series.py:217-218 | the nth term of the geometric sequence, defined by multiplying by r n − 1 times, is a·r^(n−1) |
| SequenceSeries.GeometricStep | generic-generators/sequence-n-series.py:171-172 | one more term keeps (r − 1)·Sn = a(rⁿ − 1) |
| SequenceSeries.GeometricSeriesClosed | generic-generators/sequence-n-series.py:171-172 | (r − 1)·Sn = a(rⁿ − 1) for the sum of the first n terms |
| SequenceSeries.CastMul | generic-generators/sequence-n-series.py:82-84 | converting exact integers to floats commutes with products |
| SequenceSeries.HalfProduct | generic-generators/sequence-n-series.py:82-84 | n/2 · m in floats is the exact quotient nm/2 |
| SequenceSeries.HalfRound | generic-generators/sequence-n-series.py:69-70 | `fmt(n/2 · m)` is the rounded exact quotient nm/2 |
| SequenceSeries.HalfRoundPlus | generic-generators/sequence-n-series.py:69-70 | `fmt(n/2 · m + e)` is the rounded exact quotient (nm + 2e)/2 |
| SequenceSeries.ArithmeticSumExact | generic-generators/sequence-n-series.py:81-86 | n(a + tn) is twice the sum of the first n terms, so the correct value is that sum and `fmt` loses nothing |
| SequenceSeries.ArithmeticSumInts | generic-generators/sequence-n-series.py:88-90 | the integer facts behind the "used n for n − 1" distractor |
| SequenceSeries.ArithmeticSumValues | generic-generators/sequence-n-series.py:86-90 | for positive a, d and n ≥ 5, A is twice the sum, C the sum, D the sum plus d, and B lies strictly between D and A |
| SequenceSeries.ArithmeticSumDistinct | generic-generators/sequence-n-series.py:75-90 | over the drawn values the four numbers differ |
| SequenceSeries.ArithmeticSumWrong | generic-generators/sequence-n-series.py:88-90 | A is twice the sum and D the sum plus d for every a, d and n |
| SequenceSeries.ArithmeticSum | generic-generators/sequence-n-series.py:75-118 | `gen_arithmetic_sum`: C prints the sum of the first n terms and is the final answer, A twice it, D it plus d, and the record keeps "exactly one correct" with distinct options |
| SequenceSeries.ArithmeticTnValues | generic-generators/sequence-n-series.py:126-134 | B is the nth term, A one difference more and D one difference less |
| SequenceSeries.MultipliedMatches | generic-generators/sequence-n-series.py:133 | for n > 1, the "multiplied" answer a·n equals tn exactly when a = d |
| SequenceSeries.ArithmeticTnDistinct | generic-generators/sequence-n-series.py:122-134 | a is drawn odd and d even, so a·n misses tn and the four numbers of every draw differ |
| SequenceSeries.TermRows | generic-generators/sequence-n-series.py:136-159 | the records once the four different numbers are known |
| SequenceSeries.ArithmeticTnNumbers | generic-generators/sequence-n-series.py:122-134 | the four numbers of every draw differ |
| SequenceSeries.ArithmeticTn | generic-generators/sequence-n-series.py:121-160 | `gen_arithmetic_tn`: B prints the nth term, A one difference more, C the product a·n and D one difference less; exactly one option is correct and all four differ |
| SequenceSeries.GeometricSumExact | generic-generators/sequence-n-series.py:171-181 | with an integer ratio r ≥ 2, a(rⁿ − 1)/(r − 1) is exactly the sum of the first n terms; A, B and D are a·rⁿ, a(rⁿ − 1) and the sum plus a |
| SequenceSeries.ExactQuotients | generic-generators/sequence-n-series.py:171-181 | an exact quotient and that quotient plus a round to themselves |
| SequenceSeries.DoublingCollides | generic-generators/sequence-n-series.py:171-181 | with r = 2, B (forgot to divide by r − 1) is the sum itself and D (sum plus a) equals A (a·rⁿ) |
| SequenceSeries.TriplingDistinct | generic-generators/sequence-n-series.py:171-181 | with r = 3 and n ≥ 2 the four numbers are a·3ⁿ > a(3ⁿ − 1) > Sn + a > Sn |
| SequenceSeries.HalvingRounds | generic-generators/sequence-n-series.py:173-181 | the rounding facts behind the r = 0.5 branch |
| SequenceSeries.HalvingValues | generic-generators/sequence-n-series.py:173-181 | with r = 0.5, A rounds to 0, B to −a, and the sum and the sum plus a round to within one of 2a and 3a |
| SequenceSeries.HalvingTermClosed | generic-generators/sequence-n-series.py:173-174 | the nth term of a, a/2, a/4, … is a/2ⁿ⁻¹ |
| SequenceSeries.HalvingSeriesClosed | generic-generators/sequence-n-series.py:173-174 | 2ⁿ times the sum of the first n terms of a, a/2, a/4, … is 2a(2ⁿ − 1), which is a(1 − 0.5ⁿ)/(1 − 0.5) |
| SequenceSeries.RoundedQuotient | generic-generators/sequence-n-series.py:176 | when s·p = m, rounding the quotient (m + e·p)/p is rounding s + e |
| SequenceSeries.HalvingQuotient | generic-generators/sequence-n-series.py:173-176 | the quotient over 2ⁿ that the model rounds, plus e, rounds as the halving sum plus e |
| SequenceSeries.HalvingSum | generic-generators/sequence-n-series.py:173-182 | with r = 0.5, C is `fmt` of the sum of the first n terms of a, a/2, a/4, …, and D is `fmt` of that sum plus a |
| SequenceSeries.GeometricSumCases | generic-generators/sequence-n-series.py:165-181 | C is the sum for every ratio (for r = 0.5, the rounded sum of the halving series, with D that sum plus a); with r = 2 B equals C and A equals D; otherwise the four numbers differ |
| SequenceSeries.GeometricSum | generic-generators/sequence-n-series.py:165-208 | `gen_geometric_sum`: C prints the sum of the first n terms, rounded for r = 0.5; with r = 0.5, D prints that sum plus a, A prints 0 and B prints −a; the record has one correct option and distinct options exactly when r ≠ 2 |
| SequenceSeries.GeometricTnValues | generic-generators/sequence-n-series.py:217-224 | tn·r is the (n+1)th term and, for n ≥ 2, tn // r is exactly the (n−1)th |
| SequenceSeries.GeometricTnDistinct | generic-generators/sequence-n-series.py:211-224 | tn differs from the other three numbers, and only a = 2, r = 2, n = 4 makes C and D equal |
| SequenceSeries.GeometricTn | generic-generators/sequence-n-series.py:211-250 | `gen_geometric_tn`: B prints the nth term, A the (n+1)th and D the (n−1)th; exactly one option is correct, and the options all differ except for a = 2, r = 2, n = 4 |
| Text.Strip | routing/question_generator.py:102 | `str.strip()` leaves a string no longer than before, with no white space at either end, and leaves a string without white space at its ends unchanged |
| Text.StripLeft | routing/question_generator.py:102 | the left strip is the suffix of the string starting at its first non-space |
| Text.StripRight | routing/question_generator.py:102 | the right strip is the prefix of the string ending at its last non-space |
| Text.StripIdempotent | routing/question_generator.py:102 | stripping twice is stripping once |
| Text.Lower | routing/prepare_data.py:67 | `str.lower()` keeps the length and lower-cases each character in place |
| Text.Upper | scripts/sequence-n-series/prepare_data.py:12 | `str.upper()` keeps the length and upper-cases each character in place |
| Text.LowerNoCapitals | routing/prepare_data.py:67 | a lower-cased text has no capital letter, and lower-casing leaves a text exactly when it has none |
| Text.CollapseSpaces | routing/test_router.py:34 | `re.sub(r"\s+", " ", t)` never lengthens the text |
| Text.CollapseSpacesShape | routing/test_router.py:34 | after collapsing, the only white space left is single blanks, never two in a row |
| Text.CollapseSingleBlanks | routing/test_router.py:34 | collapsing leaves a text exactly when its only white space is single blanks |
| Text.CollapseNoCapitals | routing/test_router.py:34 | collapsing adds no capital letter |
| Text.CollapseStartsLike | routing/test_router.py:34 | collapsing keeps a non-space first character in front |
| Text.CollapseKeepsEnds | routing/test_router.py:33-34 | collapsing a stripped text does not put white space at its end |
| Text.CollapseLeadingRun | routing/test_router.py:33-34 | the same, for a text that opens with white space |
| Text.JoinContainsParts | routing/test_router.py:21 | every part of a `", ".join` occurs in the joined text |
| Text.JoinFirst | scripts/sequence-n-series/prepare_data.py:13 | a join starts with its first part |
| Text.JoinLast | scripts/sequence-n-series/prepare_data.py:13 | a join ends with its last part |
| Text.ReplaceAbsent | routing/question_generator.py:141 | `str.replace` of a text that does not occur changes nothing |
| Text.ReplaceAtFront | routing/question_generator.py:141 | a string starting with the replaced text starts with the replacement afterwards |
| Text.IntStr | generic-generators/arithmetic.py:130-133 | `str(i)` of an int is non-empty |
| Text.NatStrDigits | generic-generators/arithmetic.py:130-133 | a printed natural number is all decimal digits with no leading zero |
| Text.IntStrNumeric | generic-generators/arithmetic.py:130-133 | a printed int holds only digits and a minus sign |
| Text.ParseIntStr | generic-generators/arithmetic.py:130-133 | reading back a printed int gives the int |
| Text.IntStrInjective | generic-generators/arithmetic.py:130-133 | two ints print the same exactly when they are equal |
| Text.SplitAtStop | generic-generators/quadratic-equations.py:287-297 | a printed number followed by a text that cannot continue a number splits in one way only |
| Text.Fmt1Injective | generic-generators/quadratic-equation-word.py:77-82 | an f-string with one integer hole prints different ints differently |
| Text.Fmt2Injective | generic-generators/quadratic-equations.py:287-297 | an f-string with two integer holes, separated by text that stops a number, prints different pairs differently |
| Text.Fmt2FirstHole | generic-generators/quadratic-equations.py:287-297 | two such texts with the same prefix agree on their first number |
| Fractions.GcdDivides | generic-generators/probability.py:21-22 | the greatest common divisor is positive unless both arguments are zero, and divides both |
| Fractions.GcdScale | generic-generators/probability.py:21-22 | gcd(k·x, k·y) = k·gcd(x, y) |
| Fractions.MakeFracFacts | generic-generators/probability.py:21-22 | `Fraction(n, d)` is in lowest terms and has the value n/d |
| Fractions.ReduceFacts | generic-generators/probability.py:21-22 | dividing by the gcd leaves a pair in lowest terms with the same value |
| Fractions.NormalizedUnique | generic-generators/probability.py:21-22 | two fractions in lowest terms with the same value are the same pair |
| Fractions.MakeFracEq | generic-generators/probability.py:21-22 | two constructed fractions are equal exactly when their cross products agree |
| Fractions.MulMakeFrac | generic-generators/probability.py:157-168 | multiplying two constructed fractions gives the fraction of the products |
| Fractions.QuotIsDiv | generic-generators/probability.py:21-22 | repeated subtraction finds the integer quotient |
| Fractions.FracStrInjective | generic-generators/probability.py:21-22 | `frac_str` prints two reduced fractions alike exactly when they are the same |
| Fractions.FracStrEq | generic-generators/probability.py:21-22 | two constructed fractions print alike exactly when their values are equal |
| Arith.SumProductRoots | generic-generators/quadratic-equation-word.py:156-157 | x² − (a+b)x + ab = 0 holds exactly at x = a and x = b |
| Arith.SquareRoots | generic-generators/quadratic-equations.py:325-328 | x² = a² holds exactly at x = a and x = −a |
| Arith.ProductRootUnique | generic-generators/quadratic-equation-word.py:201-205 | (p + t)(q + t) takes a given product at exactly one t where both factors stay positive |
| Arith.ZeroProduct | generic-generators/quadratic-equations.py:77-81 | a product is zero exactly when a factor is |
| Text.NatStr | generic-generators/arithmetic.py:130-133 | the decimal digits of a natural number are never empty |
| Text.ParseNatStr | generic-generators/arithmetic.py:130-133 | reading back the digits of a natural number gives it back |

## Left out

- generic-generators/growth-n-depriciation.py is not modelled. Its answers are floating-point powers (`(1 ± r/100) ** n`) rounded for display, and exact arithmetic cannot reproduce them.
- The compound-interest generators (`gen_ci_annual`, `gen_ci_fractional` and the ones after them) and `format_money` (rounding to whole rupees) in generic-generators/arithmetic.py are not modelled, for the same reason: their values are float powers. The simple-interest generator, `gen_simple_interest`, is modelled.
- The root values of `gen_quadratic_formula` (`math.sqrt` and rounding to two decimals) are not modelled. The model keeps the discriminant, the retry guard that rejects draws, and the option keys.
- File and console I/O is left out. This covers every `write_jsonl` / `_write_jsonl`, the reading of input files (the model takes their lines), the `argparse` `main()` functions and every `print`.
- The sequence-and-series preparation writes each record as `json.dumps({"text": ...})`. The model's output is the text values themselves, not the serialised lines.
- `json.loads` and `json.dumps` are opaque function parameters. A `KeyError` on a missing field ("messages", "question", "label") counts as a failed parse. One consequence: in routing/prepare_data.py, a row after the `--max_rows` cut that lacks "label" or "question" never raises in Python, because those keys are read only from the kept rows (lines 54-67). In the model such a row fails the load.
- `_load_generators` is left out: it loads scripts with `runpy` and raises "No generator functions" when a script has none. The generator table is data. Each generator call's outcome is a parameter, and that parameter also covers which `gen_` function `random.choice` picked.
- Python's random number generator, its seeding and the distributions it draws from are left out. Draws are parameters, constrained only to the ranges the source asks for. `random.shuffle` is Fisher–Yates driven by a parameter, and its uniformity is not modelled.
- A generator whose first row is not a dictionary (an `AttributeError` in `_sample_question_from_gen`) is left out: rows are modelled as records.
- routing/train_router_lora.py, scripts/growth-n-depreciation/train_lora_growth_depr.py, scripts/quick_infer.py, gpu_test.py, download_model.py and test.py are left out. They are model training, inference and environment checks, which run foreign libraries (transformers, peft, torch).
- In routing/test_router.py, `load_model`, `route` (the model call itself) and the interactive loop are left out. So are `run_generation` and `main` in scripts/arithmetic/test_arithmetic_adapter.py. The prompt building and the label and JSON extraction around them are modelled.
- `str.lower` and `str.upper` are modelled on the ASCII letters only; Unicode case mapping is not modelled. `str.strip`, `str.isspace` and the regex class `\s` use the full set of white-space characters Python's `str.isspace` accepts (`Text.IsSpace`), and `str.split` is not used.
- The explanation, step and rationale wording of the generated records is not modelled. Their tags, options, correct keys and numeric content are.
- The MCQ metadata field "difficulty" is modelled as an integer or absent, which are the values the generators write.
- Router.Normalize: its own contract states only the length bound. What the normal form means is stated by `Router.NormalizeIsNormal` and `Router.NormalizePlain`: no capitals, nothing to strip, single blanks, and a text is its own normal form exactly when it has that shape.
- Text.CollapseSpaces: its own contract states only the length bound. Its shape is stated by `Text.CollapseSpacesShape`, `Text.CollapseStartsLike`, `Text.CollapseKeepsEnds`, `Text.CollapseLeadingRun` and `Text.CollapseSingleBlanks`.
- Jsonl.NonEmpty: its own contract states only the length bound. Which lines are kept is stated by `Jsonl.NonEmptyFrom` and `Jsonl.NonEmptyConcat`.
- Jsonl.NonBlankLines: its own contract states only the length bound. Its content follows from `Jsonl.NonEmptyFrom` applied to the stripped lines.
- RoutingPrepare.ValidCount: `n_valid` rounds the exact product len × valid_ratio. Python rounds the float product (routing/prepare_data.py:78), which can differ when the product lands near a tie. For example, 90 rows at `--valid_ratio 0.35` give a product of 31.499999999999996 as a double, so Python keeps 31 rows and the model 32. Modelling the float product would need IEEE-754 multiplication, which is not part of this model.
- RoutingPrepare.SplitMeaning: its size for valid is `ValidCount`'s, so it inherits the exact-product rounding above.
- RoutingGenerate.NoneCount: `num_none` rounds the exact product len(all_rows) × none_ratio, where Python rounds the float product (routing/question_generator.py:136). The same near-tie difference is possible.
- RoutingGenerate.GeneratedCounts: the out-of-scope count it states is `NoneCount`'s, so it inherits the exact-product rounding above.
- RoutingGenerate.TableGeneratedCounts: the "none" count round(7n × none_ratio) is `NoneCount`'s, taken on the exact product.
