# CfTable: the results table, modelled in Dafny

CfTable builds the results table of a Codeforces contest for a school olympiad. It reads
the contest standings and a Google Sheets roster that maps Codeforces handles to pupils'
names and schools. It then writes a CSV report with one row per contestant who scored.
The core of the program, `Table.run` in `src/main/kotlin/com/codeforces/Main.kt`, is a
pipeline of six steps:

1. Roster reading. `Sheets.getAllUsers` walks the rows of the range with the decoder
   lambda of `run` and keeps every row that decodes to a `UserData`. An empty or missing
   range is an error ("No data found.").
2. Inclusion. A contestant is dropped when its handle is in `notContestants`
   (`{"Bykov_David"}`). It is also dropped unless it scored more than 0.5 points.
3. Matching. `mapContestantToUser` picks the roster records whose trimmed login equals
   the handle, ignoring case. A contestant matches only when exactly one record qualifies.
   Otherwise it stays unmatched.
4. A stable sort by the raw Codeforces rank.
5. The rank normalizer: an object with mutable counters `better`, `prev` and `prevCnt`.
   Its `apply` rewrites the raw ranks, in stream order, into standard competition ranks.
6. The report. `printAllInformation` writes a header row, then one row per pair. An
   unmatched contestant is printed with the `NullUser` placeholder "Нет анкеты".

The modules follow that pipeline:

- `Wrappers` holds `Option` and `Result`.
- `Text` models `trim()`, `equals(…, ignoreCase = true)` and `Int.toString()`.
- `Lists` holds a generic `filter` and its properties.
- `Model` holds the records.
- `Matcher`, `Inclusion`, `Sorting`, `Ranking`, `Roster` and `Report` each model one step.
- `Table` models `run` and the lemmas about the whole pipeline.

The normalizer is a class whose `Apply` updates its fields in place. The stream
`map`/`collect` is a method with a loop. Both are proved against a pure fold, `Exported`,
and the ranking properties are proved about that fold. `getAllUsers` is a method with a
loop, proved against the function `Collected`. The rest of the core is expressions and
library calls, so it is functions and lemmas.

Two checks that a reader might expect are absent from the code, and the model follows
the code:

- `run` does not check for empty standings. An empty standings list yields a report
  with the header alone (`Table.Run`).
- `run` does not compare a row's score count with the problem list. Such a row is
  written with its own width (`Report.PrinterRow`). `Report.TableIsRectangular` states
  when the table is rectangular.

## Model

| member | source | states |
|---|---|---|
| Text.Trim | src/main/kotlin/com/codeforces/Main.kt:180 | `trim()` on the roster login: the result is no longer than the input and is empty or neither starts nor ends with whitespace |
| Text.TrimIsSlice | src/main/kotlin/com/codeforces/Main.kt:180 | trimming only removes whitespace: the result is a slice of the input with whitespace alone on either side |
| Text.TrimDropsTrailing | src/main/kotlin/com/codeforces/Main.kt:180 | a login with no whitespace at either end, followed by whitespace, trims to that login; with nothing after it, it trims to itself |
| Text.FoldCase | src/main/kotlin/com/codeforces/Main.kt:180 | ASCII case folding: the result is never an upper-case letter, an upper-case letter becomes the same letter in lower case, and every other character is unchanged |
| Text.Lowered | src/main/kotlin/com/codeforces/Main.kt:180 | the lower-cased string has the length of the input, and each of its characters is the ASCII lower case (`Text.FoldCase`) of the input's character at that index |
| Text.EqualsIgnoreCase | src/main/kotlin/com/codeforces/Main.kt:180 | `equals(…, ignoreCase = true)` on ASCII; its partner `Text.EqualsIgnoreCaseIsLoweredEquality` states what it means |
| Text.EqualsIgnoreCaseIsLoweredEquality | src/main/kotlin/com/codeforces/Main.kt:180 | two strings are equal ignoring case iff their lower-cased forms are equal |
| Text.EqualsIgnoreCaseIsEquivalence | src/main/kotlin/com/codeforces/Main.kt:180 | comparing ignoring case is reflexive, symmetric and transitive |
| Text.NatToString | src/main/kotlin/com/codeforces/Main.kt:209 | the decimal digits of a natural number: non-empty, digits only, no leading zero |
| Text.IntToString | src/main/kotlin/com/codeforces/Main.kt:209 | `Int.toString()`: a leading minus sign iff the number is negative, then a non-empty run of decimal digits with no leading zero |
| Text.NatToStringRoundTrip | src/main/kotlin/com/codeforces/Main.kt:209 | reading the digits back gives the number |
| Text.IntToStringRoundTrip | src/main/kotlin/com/codeforces/Main.kt:209 | the rank cell reads back as the rank, negative numbers included |
| Lists.Filter | src/main/kotlin/com/codeforces/Main.kt:180 | `filter` keeps only elements that satisfy the predicate and never lengthens the list |
| Lists.FilterCounts | src/main/kotlin/com/codeforces/Main.kt:250-251 | each value is kept with its full multiplicity when it satisfies the predicate, and not at all otherwise |
| Lists.FilterKeepsOrder | src/main/kotlin/com/codeforces/Main.kt:250-251 | the kept elements are a subsequence of the input, in input order |
| Lists.FilterCons | src/main/kotlin/com/codeforces/Main.kt:180 | filtering a list with a new head filters the head, then the rest |
| Lists.FilterAppend | src/main/kotlin/com/codeforces/Main.kt:250-251 | filtering distributes over concatenation |
| Lists.FilterSingleton | src/main/kotlin/com/codeforces/Main.kt:180-182 | the filter keeps exactly one element iff exactly one index satisfies the predicate, and then it is that element |
| Matcher.LoginMatches | src/main/kotlin/com/codeforces/Main.kt:180 | the filter predicate: the trimmed roster login equals the handle ignoring case; its partner `Matcher.LoginMatchesLowered` states what it means |
| Matcher.LoginMatchesLowered | src/main/kotlin/com/codeforces/Main.kt:180 | a roster login matches iff its trimmed, lower-cased form equals the lower-cased handle, and whitespace added after or before the stored roster login never changes whether it matches |
| Matcher.MatchesLogin | src/main/kotlin/com/codeforces/Main.kt:180 | the lambda given to `filter` in `mapContestantToUser`: for a fixed handle, a roster record qualifies iff `Matcher.LoginMatches` holds of it |
| Matcher.Candidates | src/main/kotlin/com/codeforces/Main.kt:180 | `possibleUsers` holds every roster record whose trimmed login equals the handle ignoring case, each as often as in the roster, in roster order, and nothing else |
| Matcher.CandidatesAreUnique | src/main/kotlin/com/codeforces/Main.kt:180-181 | `possibleUsers.size == 1` iff exactly one roster record matches, and then the list is that record |
| Matcher.MapContestantToUser | src/main/kotlin/com/codeforces/Main.kt:179-186 | a record is returned iff exactly one roster index matches, and it is that record; zero matches or two distinct matches give `null` |
| Matcher.MatchIgnoresRank | src/main/kotlin/com/codeforces/Main.kt:252-265 | the match depends on the login alone, so it survives the rank rewrite of the normalizer |
| Matcher.HandleIsNotTrimmed | src/main/kotlin/com/codeforces/Main.kt:180 | only the roster side is trimmed: handle "ann" matches roster login "ann", handle " ann" matches nothing |
| Inclusion.NotExcluded | src/main/kotlin/com/codeforces/Main.kt:250 | the lambda of the first filter: the contestant's handle is not in the excluded set |
| Inclusion.PointsThreshold | src/main/kotlin/com/codeforces/Main.kt:251 | the constant 0.5 of the score filter |
| Inclusion.Scored | src/main/kotlin/com/codeforces/Main.kt:251 | the lambda of the second filter: the contestant has strictly more points than `Inclusion.PointsThreshold` |
| Inclusion.Eligible | src/main/kotlin/com/codeforces/Main.kt:250-251 | the exclusion filter, then the score filter; its partner `Inclusion.EligibleSpec` states exactly which contestants survive and in what order |
| Inclusion.EligibleSpec | src/main/kotlin/com/codeforces/Main.kt:248-251 | every survivor is outside `notContestants` and has more than 0.5 points; each qualifying contestant survives with its full multiplicity, and no other does; survivors keep their standings order |
| Sorting.Insert | src/main/kotlin/com/codeforces/Main.kt:253 | inserting into a rank-sorted list gives a rank-sorted list one longer, holding the same rows plus the new one |
| Sorting.SortByRank | src/main/kotlin/com/codeforces/Main.kt:253 | `sortedBy { it.first.rank }` returns a rank-sorted permutation of its input |
| Sorting.InsertIsStable | src/main/kotlin/com/codeforces/Main.kt:253 | insertion places the new row after nothing of its own rank, so every rank group keeps its order |
| Sorting.SortByRankIsStable | src/main/kotlin/com/codeforces/Main.kt:253 | the sort is stable: for every rank, the rows of that rank appear in their input order |
| Sorting.SortSortedIsIdentity | src/main/kotlin/com/codeforces/Main.kt:253 | sorting an already sorted list changes nothing |
| Ranking.SortedByRankIsSortedRanks | src/main/kotlin/com/codeforces/Main.kt:253 | rows are sorted by rank (`Sorting.SortedByRank`) iff their raw ranks are sorted (`Ranking.Sorted`) |
| Ranking.Step | src/main/kotlin/com/codeforces/Main.kt:261-268 | the counter update of `apply`; its partners `Ranking.StepAccounting` and `Ranking.RankNormalizer.Apply` state what it keeps and that `apply` performs it |
| Ranking.StepAccounting | src/main/kotlin/com/codeforces/Main.kt:261-268 | after a step the current group is the new rank's, `better + prevCnt` has counted one more row, and `better` only grows, and only when a new group starts |
| Ranking.Normalized | src/main/kotlin/com/codeforces/Main.kt:254-272 | the list the stream collects: as long as its input, with every user and every contestant field but the rank unchanged; `Ranking.RanksOfNormalized` gives its ranks |
| Ranking.Exported | src/main/kotlin/com/codeforces/Main.kt:255-272 | the fold of `apply` over the raw ranks emits one exported rank per row |
| Ranking.RankNormalizer.constructor | src/main/kotlin/com/codeforces/Main.kt:256-258 | the counters start at `better = prev = prevCnt = 0` |
| Ranking.RankNormalizer.Apply | src/main/kotlin/com/codeforces/Main.kt:260-270 | `apply` moves the counters one step of the fold: a new group adds `prevCnt` to `better` and restarts the count, a repeated rank increments `prevCnt`; it returns the row with rank `better + 1` and nothing else changed |
| Ranking.NormalizeRanks | src/main/kotlin/com/codeforces/Main.kt:254-272 | the stream over a fresh normalizer yields the fold's ranks, keeps length, users and every contestant field but the rank, and on sorted rows gives each row 1 + the number of rows with a strictly smaller raw rank |
| Ranking.ExportedIsCompetitionRank | src/main/kotlin/com/codeforces/Main.kt:255-272 | on sorted raw ranks each exported rank is 1 + the number of rows with a strictly smaller raw rank (standard competition ranking) |
| Ranking.ExportedCountsEarlierRows | src/main/kotlin/com/codeforces/Main.kt:255-272 | the same rank counted over the earlier rows only |
| Ranking.ExportedBounds | src/main/kotlin/com/codeforces/Main.kt:256-269 | for any input order, the first row is ranked 1 and row `i` is ranked between 1 and `i + 1` |
| Ranking.TiesShareRank | src/main/kotlin/com/codeforces/Main.kt:266-269 | consecutive equal raw ranks share one exported rank, for any input order |
| Ranking.GroupJump | src/main/kotlin/com/codeforces/Main.kt:261-265 | on sorted raw ranks, a new group's rank is the previous row's rank plus the size of the previous group |
| Ranking.ExportedIsSorted | src/main/kotlin/com/codeforces/Main.kt:255-272 | on sorted raw ranks the exported ranks never decrease, and they increase exactly where a new raw-rank group starts |
| Ranking.ExportedIsIdempotent | src/main/kotlin/com/codeforces/Main.kt:255-272 | normalizing exported ranks again returns them unchanged |
| Ranking.RanksOfNormalized | src/main/kotlin/com/codeforces/Main.kt:265-269 | the ranks of the normalized rows are the fold's exported ranks |
| Ranking.NormalizedIsIdempotent | src/main/kotlin/com/codeforces/Main.kt:255-272 | normalizing a normalized list of sorted rows changes nothing |
| Ranking.ExportedExamples | src/main/kotlin/com/codeforces/Main.kt:255-272 | raw ranks 1,2,2,4, then 1,1,3, then 1,1 come out unchanged |
| Ranking.ExportedTieThenNext | src/main/kotlin/com/codeforces/Main.kt:256-269 | for any raw ranks x ≠ y, rows x,x,y are ranked 1,1,3 and rows x,x are ranked 1,1, so the `prev = 0` start is harmless even when x is 0 |
| Ranking.CountBelowStrict | src/main/kotlin/com/codeforces/Main.kt:261-265 | a raw rank that occurs is counted below every larger one |
| Ranking.CountBelowNextGroup | src/main/kotlin/com/codeforces/Main.kt:261-265 | with nothing in between, the rows below the next group are those below this group plus this group |
| Roster.Collected | src/main/kotlin/com/codeforces/Main.kt:74-81 | the reference for the loop of `getAllUsers`: its partners `Roster.CollectedAppend` and `Roster.CollectedMembers` state row order and membership, and `Roster.GetAllUsers` is proved equal to it |
| Roster.IsRosterRow | src/main/kotlin/com/codeforces/Main.kt:238 | the length test of the decoder lambda: a row holds a record iff it has at least four cells |
| Roster.DecodeRosterRow | src/main/kotlin/com/codeforces/Main.kt:237-247 | the decoder yields a record iff the row has at least four cells |
| Roster.DecodeLayout | src/main/kotlin/com/codeforces/Main.kt:241-245 | a row laid out as name, school, any third cell, login, then anything, decodes to exactly that record |
| Roster.GetAllUsers | src/main/kotlin/com/codeforces/Main.kt:69-82 | fails with "No data found." iff the range is missing or empty; otherwise returns the decoded records of the rows, in row order, without the rows that decode to `null` |
| Roster.CollectedAppend | src/main/kotlin/com/codeforces/Main.kt:74-81 | collecting distributes over concatenation of rows |
| Roster.CollectedMembers | src/main/kotlin/com/codeforces/Main.kt:75-80 | a record is collected iff some row decodes to it |
| Roster.RosterFromWellFormedRows | src/main/kotlin/com/codeforces/Main.kt:237-247 | the roster is the rows with at least four cells, in sheet order, each read as login = fourth cell, name = first, school = second |
| Report.Header | src/main/kotlin/com/codeforces/Main.kt:215-220 | the header is the four leading labels, the problem indices and then "Школа" |
| Report.ShowAll | src/main/kotlin/com/codeforces/Main.kt:213 | one rendered cell per problem score, in order |
| Report.PrinterRow | src/main/kotlin/com/codeforces/Main.kt:206-214 | a row has 5 + (number of scores) cells: a rank cell that is `Text.IntToString` of the rank and reads back as the rank, the name or "Нет анкеты", points, login, one cell per score, and the school or "Нет анкеты" |
| Report.PrintAllInformation | src/main/kotlin/com/codeforces/Main.kt:195-221 | the CSV holds the header first, then exactly one printer row per pair, in list order |
| Report.ColumnsAlign | src/main/kotlin/com/codeforces/Main.kt:206-220 | when a contestant has one score per problem, its row is as wide as the header and each problem column holds that problem's score |
| Report.TableIsRectangular | src/main/kotlin/com/codeforces/Main.kt:195-221 | when every contestant has one score per problem, every CSV row is 5 + (number of problems) wide |
| Model.UserData | src/main/kotlin/com/codeforces/Main.kt:86-90 | the roster record: `login`, `name` and `school` are the Kotlin fields of the same names, all strings |
| Model.NoProfile | src/main/kotlin/com/codeforces/Main.kt:93-95 | the text "Нет анкеты" ("no profile") that each field of `NullUser` carries |
| Model.NullUser | src/main/kotlin/com/codeforces/Main.kt:92-96 | the placeholder record whose `login`, `name` and `school` all carry "Нет анкеты" |
| Model.Contestant | src/main/kotlin/com/codeforces/Main.kt:172-177 | the standings row: `login`, `rank` and `problems` are the Kotlin fields of the same names; `points` (a `Double`) and the problem scores are `real`, since they are only compared and carried along |
| Model.MatchedRow | src/main/kotlin/com/codeforces/Main.kt:190 | the `Pair<Contestant, UserData?>` the pipeline carries: `contestant` is `first`, and `user` is `second`, with `None` for `null` |
| Wrappers.Option.GetOr | src/main/kotlin/com/codeforces/Main.kt:207 | the Elvis operator `userNullable ?: NullUser`: the value of `Some`, or the default for `None` |
| Model.WithRank | src/main/kotlin/com/codeforces/Main.kt:265 | the pair with the contestant's rank replaced; its partner `Model.WithRankRestores` states that nothing else changes |
| Model.WithRankRestores | src/main/kotlin/com/codeforces/Main.kt:265-269 | the copy carries the new rank, and putting the old rank back restores the original pair |
| Table.NotContestants | src/main/kotlin/com/codeforces/Main.kt:248 | the one handle that is never reported, "Bykov_David"; `Table.Run` excludes it |
| Table.PairWithUsers | src/main/kotlin/com/codeforces/Main.kt:252 | each contestant is paired, in order, with its matcher result |
| Table.Prepared | src/main/kotlin/com/codeforces/Main.kt:249-253 | the list the normalizer consumes: one row per survivor, sorted by raw rank, a permutation of the survivors paired with their matches |
| Table.ContestantsWithUsers | src/main/kotlin/com/codeforces/Main.kt:249-272 | `contestantsWithUsers` is the normalized, sorted, paired list of the survivors |
| Table.Run | src/main/kotlin/com/codeforces/Main.kt:231-274 | fails with "No data found." iff the roster range's value list is missing or empty; otherwise writes the report of the normalized survivors, with the roster decoded row by row and `notContestants` excluded |
| Table.CountBelowPermutation | src/main/kotlin/com/codeforces/Main.kt:253 | the number of better raw ranks does not depend on the order of the rows |
| Table.PreparedRow | src/main/kotlin/com/codeforces/Main.kt:249-253 | every row that reaches the normalizer is a surviving contestant paired with its own match |
| Table.PipelineGuarantees | src/main/kotlin/com/codeforces/Main.kt:248-272 | the report lists every survivor exactly once (a permutation), each outside the exclusion set with more than 0.5 points and paired with its match; only ranks change, and each rank is 1 + the number of survivors with a strictly better raw rank |
| Table.TrimmedExampleLogins | src/main/kotlin/com/codeforces/Main.kt:180 | roster logins "Ann " and "bob" trim to "Ann" and "bob" |
| Table.AnnMatchesFirstRecordOnly | src/main/kotlin/com/codeforces/Main.kt:180 | handle "ann" matches "Ann " once trimmed and case-folded, and not "bob" |
| Table.BobMatchesSecondRecordOnly | src/main/kotlin/com/codeforces/Main.kt:180 | handle "BOB" matches "bob" ignoring case, and not "Ann " |
| Table.CarlMatchesNothing | src/main/kotlin/com/codeforces/Main.kt:180 | handle "carl" matches no roster record |
| Table.ExampleMatches | src/main/kotlin/com/codeforces/Main.kt:179-186 | in the worked example "ann" and "BOB" get their records and "carl" gets `null` |
| Table.ExampleEligible | src/main/kotlin/com/codeforces/Main.kt:248-251 | in the worked example all three contestants survive, and excluding "carl" leaves the first two |
| Table.RanksOfPairs | src/main/kotlin/com/codeforces/Main.kt:252 | pairing keeps the raw ranks, in order |
| Table.PreparedWhenSorted | src/main/kotlin/com/codeforces/Main.kt:253 | survivors already in raw-rank order are not reordered |
| Table.NormalizedWhenSorted | src/main/kotlin/com/codeforces/Main.kt:249-272 | for survivors in raw-rank order, the report lists them in that order, each with its own match, ranked by the fold over their raw ranks |
| Table.SortedSurvivorRanks | src/main/kotlin/com/codeforces/Main.kt:249-272 | for survivors in raw-rank order, the final ranks are the fold's exported ranks |
| Table.TieScenarioRanks | src/main/kotlin/com/codeforces/Main.kt:248-272 | for any raw ranks, two tied scorers followed by a worse one are ranked 1, 1, 3 |
| Table.TieScenarioUsers | src/main/kotlin/com/codeforces/Main.kt:249-272 | in the worked example the report's rows carry ann's record, bob's record and no record for carl |
| Table.ExclusionScenario | src/main/kotlin/com/codeforces/Main.kt:248-272 | an excluded contestant leaves no gap: the two tied rows that remain are ranked 1, 1 |

## Left out

- Google Sheets access (OAuth credentials, the HTTP transport, the `values().get` call) is left out because it is I/O. `Roster.GetAllUsers` and `Table.Run` take the range's rows as a parameter, with `None` for a missing value list.
- The Codeforces API client (`genRand`, `hash`, `sendRequest`, `getContestProblems`, `getContestResults`) is left out because it is network I/O, randomness, a clock and SHA-512. `Table.Run` takes the standings and the problem indices as parameters.
- The `secrets.json` lookup and the command-line options (`contestId`, `--sheet`, `--range`, `--table-name`) are left out because they are process environment. The exclusion set is fixed to `notContestants`.
- CSV writing (`printToCsv` opening `results/<name>.csv`) is left out because it is file I/O. `Report.PrintAllInformation` returns the rows that would be written, in order.
- The `println` diagnostic of `mapContestantToUser` is left out because it is output only and does not change the result.
- `Double.toString` is left out because floating-point formatting is not modelled. The scores are `real`, and the rendering is the parameter `show`, the same for points and problem scores.
- Text.Trim, Text.EqualsIgnoreCase: cover ASCII only. Kotlin also treats Unicode spaces as whitespace and folds non-ASCII letters; both are left out because Unicode tables are outside this model.
- Roster.DecodeRosterRow: treats every cell as a string. The `as String` cast in the source would throw on a non-string cell; that exception is not modelled.
- Ranking.RankNormalizer.Apply: does not model 32-bit overflow of `better + prevCnt` or of `prevCnt++`, because it would need more than 2^31 rows.
- The JVM stream's laziness and threading are left out. The map runs sequentially, in list order, which is what a sequential stream does.

