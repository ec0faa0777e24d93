# Skill-gap analysis engine — a Dafny model

This project models the analysis core of a workforce skill-gap tracker (`analysis.py`).

- **Gap scoring.** For each employee with a role, and each skill that role requires, the analysis computes the employee's gap: current proficiency minus required proficiency. Current proficiency is 0 when the employee has no proficiency row for the skill. The gap is classified High, Medium or Low, and predicts 20 training hours per missing level.
- **The gap table.** Every assessment is saved in a table keyed by (employee, skill). An existing row is overwritten; a new row, with a fresh row id, is added only when the pair has none.
- **The run.** A skill id that names no skill aborts the run, and the table is rolled back.
- **Reads of the table.** Three requests read the saved rows:
  - the gap list of one employee;
  - training predictions for one employee: hours, a success probability, and weeks at eight hours a week;
  - training recommendations: deficits filtered by employee and priority, two suggestions chosen by gap size, a cost of 50 per hour, sorted by (priority rank, gap size).

Modules:

| module | file | contents |
|---|---|---|
| `Wrappers` | `wrappers.dfy` | `Option`, `Result` |
| `GapScoring` | `gap_scoring.dfy` | gap score, priority tiers, training hours, the `Assessment` value |
| `GapStore` | `gap_store.dfy` | the gap table as a value (`StoreState`) and the pure upsert (`WithAssessment`); the class `Store`, which holds the table and updates it in place |
| `Schema` | `schema.dfy` | employees (with an optional role), skills, role requirements, proficiency rows, and the lookup errors |
| `GapAnalysis` | `gap_analysis.dfy` | the analysis run: the specification `AnalyzeSpec` and the nested-loop method `Analyze`, which writes through a `Store` |
| `RecommendationOrder` | `recommendation_order.dfy` | a stable descending sort by a key |
| `Recommendations` | `recommendations.dfy` | the recommendations request, suggestions and cost |
| `EmployeeGaps` | `employee_gaps.dfy` | the per-employee gap list |
| `Predictions` | `predictions.dfy` | the predictions request |

How inputs are modelled:

- **The database.** It is an input value (`Schema.Database`). The query results the handlers iterate over are sequences in the order the database returns them.
- **The gap table read by the three requests.** It is a sequence of `GapRecord` rows in query order.
- **The clock** (`datetime.utcnow()`). It is an integer parameter `now`. The model uses one reading for every row a run writes; the source reads the clock once per row (see "## Left out").
- **Errors.** Every exception the handlers turn into an error response is a `Failure`:
  - `get_or_404` on an unknown employee becomes `EmployeeNotFound`;
  - a skill or employee reference naming nothing becomes `SkillNotFound` or `EmployeeNotFound`, in the order the source touches them.

## Model

| member | source | states |
|---|---|---|
| GapScoring.GapScore | analysis.py:55 | the gap is negative exactly when current < required, zero exactly when they are equal, and required + gap = current |
| GapScoring.Classify | analysis.py:57-63 | High exactly when gap <= -2, Medium exactly when gap = -1, Low exactly when gap >= 0 |
| GapScoring.Rank | analysis.py:232 | the sort rank of a tier lies in 1..3; its order is lemma RankOrder |
| GapScoring.RankOrder | analysis.py:232 | High ranks above Medium, and Medium above Low |
| GapScoring.CurrentLevel | analysis.py:47-54 | the employee's proficiency level for the skill, or 0 when there is no proficiency row |
| GapScoring.TrainingHours | analysis.py:65-66 | hours are 20 per missing level, so never negative, and 0 exactly when the tier is Low |
| GapScoring.Assess | analysis.py:54-66 | the assessment of one pair has the pair's key and levels, and fields consistent with each other: gap, tier and hours derived as above |
| GapScoring.ClassifyMonotone | analysis.py:58-63 | a lower gap never gets a lower priority rank |
| GapScoring.HoursMonotone | analysis.py:66 | a lower gap never predicts fewer hours |
| GapScoring.ConsistentDeficit | analysis.py:54-66 | for a consistent assessment, these are the same condition: a deficit, a non-Low tier, positive hours, current < required; hours = 20 × max(0, required − current) |
| GapScoring.Scenarios | analysis.py:54-66 | worked cases, including a missing proficiency row counted as level 0 |
| GapStore.WithAssessment | analysis.py:69-92 | saving one assessment: the key set gains the assessment's key; its row holds the assessment stamped now; an existing row keeps its id, a new row takes the next id; every other row is unchanged |
| GapStore.WithAssessments | analysis.py:45-92 | definition: the saves of a batch, in order; the table stays keyed; its effect is lemmas WithAssessmentsEffect, WithAssessmentsWellFormed, WithAssessmentsTwice |
| GapStore.WithAssessmentWellFormed | analysis.py:69-92 | one save keeps the table well formed: rows filed under their own key, consistent fields, distinct row ids below the next id |
| GapStore.WithAssessmentsWellFormed | analysis.py:45-92 | a batch of saves keeps the table well formed |
| GapStore.WithAssessmentsEffect | analysis.py:45-92 | after a batch: keys = old keys ∪ batch keys; each batch key's row holds the last assessment for it, stamped now; other rows are unchanged; old rows keep their ids |
| GapStore.WithAssessmentsKeys | analysis.py:69-92 | the key, row-id and unchanged-row part of the batch effect |
| GapStore.WithAssessmentsValues | analysis.py:74-92 | the stored-value part of the batch effect |
| GapStore.LastForDistinct | analysis.py:69-72 | with pairwise distinct keys, the last assessment for the i-th key is the i-th assessment |
| GapStore.WithAssessmentsDistinct | analysis.py:69-92 | with distinct keys, each assessment of the batch is in its key's row, stamped now |
| GapStore.WithAssessmentsStamp | analysis.py:80 | a batch under one clock reading equals the batch under another, with the batch keys' stamps replaced |
| GapStore.StampStep | analysis.py:74-92 | one save commutes with restamping |
| GapStore.StampStepAt | analysis.py:74-92 | the per-row form of that commutation |
| GapStore.WithAssessmentsPresent | analysis.py:74-81 | a batch whose keys all have rows already holding its values changes only the stamps |
| GapStore.WithAssessmentsIdsNotNew | analysis.py:74-81 | a batch whose keys all have rows hands out no new row id |
| GapStore.WithAssessmentsTwice | analysis.py:69-92 | saving a batch twice equals saving it once at the second clock reading: no duplicate row, no new id, same values |
| GapStore.StoredRowsConsistent | analysis.py:54-92 | rows read out of a well-formed table have consistent gap, tier and hours, so the lemmas that ask for analysis-written rows apply to them |
| GapStore.Store.constructor | models.py:135 | an empty gap table; the integer primary key hands out row ids from 1 |
| GapStore.Store.Upsert | analysis.py:69-92 | overwrites in place, or adds the key's row; the new state is `WithAssessment` of the old one, and the table stays well formed |
| GapStore.Store.Rollback | analysis.py:115-116 | restores the table to a saved well-formed state |
| Schema.FindEmployee | analysis.py:27 | the employee with a given id when one exists, `None` exactly when none has that id |
| GapAnalysis.DictPut | analysis.py:43 | a dictionary store: a present key keeps its position and takes the new level, an absent key is appended; the keys stay distinct |
| GapAnalysis.RequiredSkills | analysis.py:43 | the role's required-skill dictionary has distinct skills |
| GapAnalysis.RequiredSkillsLastWins | analysis.py:43 | every dictionary item is the last requirement row for its skill |
| GapAnalysis.RequiredSkillsCovers | analysis.py:43 | every skill the role's rows name is in the dictionary |
| GapAnalysis.RequiredSkillsOfDistinct | analysis.py:43-45 | rows with distinct skills give the dictionary unchanged, in row order |
| GapAnalysis.VisitsFor | analysis.py:45 | the visited pairs of one employee, one per required skill, in dictionary order |
| GapAnalysis.EmployeeVisits | analysis.py:34-45 | definition: no pair for an employee without a role, otherwise one per entry of the role's dictionary, all of that employee |
| GapAnalysis.Visits | analysis.py:33-45 | definition: the pairs of the outer and inner loop, each of an employee with a role; membership of the listed employees and the other properties are lemmas VisitsFromEmployees, VisitsFromRoles, VisitsAppend, VisitKeysDistinct |
| GapAnalysis.VisitsLast | analysis.py:33-45 | the pairs of a non-empty list are those of all but the last employee, followed by the last employee's |
| GapAnalysis.VisitsAppend | analysis.py:33-45 | the pairs of a concatenation of employee lists are the pairs of each part, in order |
| GapAnalysis.Evaluate | analysis.py:47-66 | the assessment of a visited pair has that pair's (employee, skill) key, the employee's proficiency level for the skill (0 when there is no row), the pair's required level, and consistent derived fields |
| GapAnalysis.CountDeficits | analysis.py:111 | the gap count never exceeds the number of results |
| GapAnalysis.CountDeficitsCounts | analysis.py:111 | `total_gaps_found` is the number of results with a negative gap |
| GapAnalysis.SelectEmployees | analysis.py:23-30 | a missing or zero id selects every employee; another id selects that employee, or fails with `EmployeeNotFound` |
| GapAnalysis.ResultsOf | analysis.py:94-104 | definition: one result per pair on success; a failure names a visited skill id that names no skill; further properties are lemmas ResultsOfShape, ResultsCarryLevels, ResultsFailurePersists |
| GapAnalysis.AnalyzeSpec | analysis.py:19-117 | definition of a run: a failed selection or skill lookup leaves the table as it was; on success `analyzed_employees` counts every selected employee and `total_gaps_found` is at most the number of results; the table stays keyed; further properties are lemmas AnalyzeStoreEffect, AnalyzeIdempotent, CountDeficitsCounts |
| GapAnalysis.ResultsOfShape | analysis.py:94-104 | the run succeeds exactly when every visited skill id names a skill; then there is one result per visited pair, in order, with that pair's assessment, name and skill name |
| GapAnalysis.ResultsCarryLevels | analysis.py:33-55 | each result of a successful run has its pair's key, the proficiency level (0 without a row) and the required level of the employee's role dictionary, for a listed employee with a role |
| GapAnalysis.ResultsFailurePersists | analysis.py:98 | once a skill lookup has failed, later pairs do not change the failure |
| GapAnalysis.VisitsFromRoles | analysis.py:33-45 | every visited pair belongs to a selected employee that has a role, and to a skill that role requires |
| GapAnalysis.VisitsFromEmployees | analysis.py:33-45 | every visited pair is one of the pairs of a selected employee |
| GapAnalysis.RolelessEmployeeSkipped | analysis.py:34-35 | an employee without a role adds no pair, hence no result and no write |
| GapAnalysis.EmployeeVisitKeys | analysis.py:45 | the pairs of one employee have that employee's id and distinct keys |
| GapAnalysis.VisitKeysDistinct | analysis.py:33-45 | employees with distinct ids are visited at distinct (employee, skill) keys |
| GapAnalysis.AnalyzeStoreEffect | analysis.py:69-92 | after a successful run: the table has the old keys plus the visited keys; with distinct employee ids, each result's row holds its assessment, stamped now; other rows are unchanged; old rows keep their ids |
| GapAnalysis.AnalyzeSpecSucceeded | analysis.py:19-113 | a successful run selected its employees, built the results of their pairs, and saved those results' assessments as one batch |
| GapAnalysis.SelectedDistinctIds | analysis.py:25-30 | selecting one employee or all of them keeps employee ids distinct |
| GapAnalysis.ResultsStoreEffect | analysis.py:69-92 | saving the assessments of results with distinct keys: each result's row holds its assessment stamped now, other rows are unchanged, old rows keep their ids |
| GapAnalysis.AnalyzeIdempotent | analysis.py:19-113 | a second run on unchanged inputs reports the same outcome, and leaves the table as one run at the second clock reading |
| GapAnalysis.AbortedRun | analysis.py:98 | a required skill naming no skill, reached after all earlier pairs succeeded, makes the whole run fail on that skill |
| GapAnalysis.AnalyzePair | analysis.py:47-104 | one pair: saves its assessment first, then reports it, or signals that its skill id names no skill |
| GapAnalysis.AnalyzeRequirements | analysis.py:45-104 | the inner loop over a role's required skills, against `ResultsOf` and `WithAssessments` |
| GapAnalysis.AnalyzeEmployee | analysis.py:33-104 | one employee of the outer loop: skipped without a role, otherwise the inner loop; a failure is the failure of the whole run |
| GapAnalysis.AnalyzeEmployees | analysis.py:33-104 | the outer loop: its outcome is `ResultsOf` of all visited pairs; on success the table has their assessments saved |
| GapAnalysis.Analyze | analysis.py:19-117 | a run's report and resulting table are `AnalyzeSpec`'s; on failure the table is as before the run |
| RecommendationOrder.InsertMultiset | analysis.py:233-236 | inserting keeps the multiset of elements |
| RecommendationOrder.Insert | analysis.py:233-236 | definition: one insertion step, which adds one element; properties are lemmas InsertMultiset, InsertSorted, InsertWithKey |
| RecommendationOrder.SortDesc | analysis.py:233-236 | definition: the stable descending sort, which keeps the length; properties are lemmas SortDescSorted, SortDescPermutation, SortDescStable |
| RecommendationOrder.InsertSorted | analysis.py:233-236 | inserting into a descending list keeps it descending |
| RecommendationOrder.InsertWithKey | analysis.py:233-236 | inserting puts the element before the elements already there with its key, and leaves other keys' elements unchanged |
| RecommendationOrder.SortDescSorted | analysis.py:233-236 | the sorted list is non-increasing by key |
| RecommendationOrder.SortDescPermutation | analysis.py:233-236 | the sorted list is a permutation of the input |
| RecommendationOrder.SortDescStable | analysis.py:233-236 | elements with equal keys keep their input order (a stable sort, reversed by key only) |
| Recommendations.TrainingCost | analysis.py:264-268 | the cost is non-negative for non-negative hours, and zero exactly when the hours are |
| Recommendations.TrainingSuggestions | analysis.py:248-262 | always exactly two suggestions, each naming the skill |
| Recommendations.TierOf | analysis.py:252-260 | the suggestion pair is the bootcamp pair exactly when the gap size is >= 3, the intermediate pair exactly when it is 2, the refresher pair exactly when it is <= 1 |
| Recommendations.SuggestionsDetermineTier | analysis.py:252-260 | two gap sizes get the same suggestions exactly when they fall in the same tier (>= 3, = 2, otherwise) |
| Recommendations.TierOfPriority | analysis.py:58-63 | for a consistent stored deficit: Medium gets the refresher pair, and High gets one of the other two |
| Recommendations.Capitalize | analysis.py:207 | first character upper case, the rest lower case, length kept |
| Recommendations.CapitalizeNames | analysis.py:207 | "high" selects High, and "LOW" selects Low |
| Recommendations.Selected | analysis.py:203-210 | a selected row is a deficit; with no employee filter and priority "all", a row is selected exactly when it is a deficit |
| Recommendations.Query | analysis.py:201-210 | the selected rows are exactly the stored rows meeting all three conditions: the employee filter (zero or missing means everyone), the priority filter (unless "all"), and gap < 0; order and multiplicity are lemmas QueryAppend, QuerySingle |
| Recommendations.QueryAppend | analysis.py:201-210 | the query of a concatenation is the query of each part, concatenated: stored order is kept |
| Recommendations.QuerySingle | analysis.py:203-210 | a single row is returned once when it meets the conditions, otherwise not at all |
| Recommendations.QueryLast | analysis.py:201-210 | the query of a non-empty list is the query of all but the last row, followed by the last row when it is selected |
| Recommendations.Recommend | analysis.py:215-228 | one recommendation copies the gap's ids, levels, tier and hours; it carries the employee's full name and the skill's name and category; its gap size is \|gap\|, its suggestions are for the skill's name, its cost is 50 × hours; a missing employee, then a missing skill, is an error |
| Recommendations.RecommendAllShape | analysis.py:213-229 | a successful build has one recommendation per selected gap, in order |
| Recommendations.RecommendAllFailurePersists | analysis.py:213-229 | a failed lookup ends the build with that failure |
| Recommendations.RecommendAllSnoc | analysis.py:213-229 | one more gap extends the build by its recommendation, or fails with its error |
| Recommendations.RecommendAll | analysis.py:213-229 | definition: on success one recommendation per gap; further properties are lemmas RecommendAllShape, RecommendAllSnoc, RecommendAllFailurePersists |
| Recommendations.TotalCost | analysis.py:241 | the total of the cost estimates, non-negative when every estimate is; related to hours by lemma TotalCostOfHours |
| Recommendations.TotalHours | analysis.py:242 | the total of the durations, non-negative when every duration is |
| Recommendations.EmployeesOf | analysis.py:240 | exactly the employee ids that occur in the list; bounded by lemma EmployeesAtMost |
| Recommendations.RecommendationsSpec | analysis.py:193-246 | definition of the answer: fails exactly when building a selected gap's recommendation fails; on success one recommendation per selected row; further properties are lemmas ReportOf, RecommendationsProvenance, RecommendationsFiltered, RecommendationsOrdered, RecommendationTotals |
| Recommendations.ReportOf | analysis.py:231-243 | a successful answer is the sorted list of the selected gaps' recommendations, with its totals |
| Recommendations.BuiltFrom | analysis.py:213-229 | every built recommendation comes from one of the selected gaps |
| Recommendations.RecommendationsProvenance | analysis.py:201-236 | the list is a permutation of the recommendations of the selected gaps, and each comes from a stored row the query selects |
| Recommendations.RecommendationsFiltered | analysis.py:203-210 | every recommendation has gap size > 0, the requested priority (unless "all"), and the requested employee (unless none or zero) |
| Recommendations.SelectedRecommendation | analysis.py:203-227 | the recommendation of a selected gap has gap size > 0, the requested priority (unless "all") and the requested employee (unless none or zero) |
| Recommendations.RecommendationsOrdered | analysis.py:231-236 | the list is non-increasing by (rank, gap size), and recommendations with equal keys keep the stored order |
| Recommendations.TotalCostOfHours | analysis.py:241-242 | if every cost is 50 × its hours, the total cost is 50 × the total hours |
| Recommendations.RecommendationTotals | analysis.py:241-242 | total estimated cost = 50 × total training hours |
| Recommendations.EmployeesAtMost | analysis.py:240 | a list has at most as many distinct employees as entries |
| Recommendations.EmployeesOfSnoc | analysis.py:240 | one more recommendation adds exactly its employee id to the set of employees |
| Recommendations.RecommendationEmployees | analysis.py:240 | `total_employees_needing_training` is at most the number of recommendations; it is 1 when an employee filter is given and something is recommended |
| Recommendations.NoLowRecommendation | analysis.py:58-66 | on a table written by the analysis, no recommendation is Low, and each duration is 20 × its gap size |
| Recommendations.LowFilterSelectsNothing | analysis.py:206-210 | on a table written by the analysis, the Low filter selects no row |
| Recommendations.SortExample | analysis.py:232-236 | recommendations with (priority, gap size) (High,3), (Medium,5), (High,1) sort to (High,3), (High,1), (Medium,5) |
| Recommendations.GenerateRecommendations | analysis.py:193-246 | the loop-and-sort method answers exactly `RecommendationsSpec` |
| EmployeeGaps.RowsFor | analysis.py:125 | exactly the stored rows of the employee; order and multiplicity are lemmas RowsForAppend, RowsForSingle |
| EmployeeGaps.RowsForAppend | analysis.py:125 | the rows of a concatenation are the rows of each part, concatenated: stored order is kept |
| EmployeeGaps.RowsForSingle | analysis.py:125 | a single row is kept once when it is the employee's, otherwise dropped |
| EmployeeGaps.RowsForLast | analysis.py:125 | the rows of a non-empty list are those of all but the last row, followed by the last row when it is the employee's |
| EmployeeGaps.View | analysis.py:128-132 | a row joined with its skill's name and category, or `SkillNotFound` exactly when the skill is missing |
| EmployeeGaps.ViewsShape | analysis.py:128-132 | the listing succeeds exactly when every row's skill exists; then it has one view per row, in order |
| EmployeeGaps.ViewsFailurePersists | analysis.py:128-132 | a failed skill lookup ends the listing with that failure |
| EmployeeGaps.Views | analysis.py:128-132 | definition: on success one view per row; further properties are lemmas ViewsShape, ViewsFailurePersists |
| EmployeeGaps.CountBelow | analysis.py:138 | the `total_gaps` count never exceeds the number of views; its value is lemma CountBelowCounts |
| EmployeeGaps.CountBelowCounts | analysis.py:138 | `total_gaps` is the number of views whose gap score is negative |
| EmployeeGaps.CountHigh | analysis.py:139 | the `high_priority_gaps` count never exceeds the number of views; its value is lemma CountHighCounts |
| EmployeeGaps.CountHighCounts | analysis.py:139 | `high_priority_gaps` is the number of views whose priority is High |
| EmployeeGaps.EmployeeGapsSpec | analysis.py:119-143 | definition of the answer: an unknown employee is `EmployeeNotFound`; on success the requested id, one view per stored row of the employee, both counts at most the number of views; further properties are lemma EmployeeGapsContents |
| EmployeeGaps.HighWithinTotal | analysis.py:138-139 | on rows written by the analysis, the High count is at most the deficit count |
| EmployeeGaps.EmployeeGapsContents | analysis.py:119-140 | a successful answer lists exactly the employee's rows, in stored order, and its High count is at most its deficit count on analysis-written rows |
| EmployeeGaps.EmployeeSkillGaps | analysis.py:119-143 | the method answers exactly `EmployeeGapsSpec`: unknown employee, missing skill, or the listing with both counts |
| Predictions.CompletionWeeks | analysis.py:176 | weeks w satisfy 8w <= hours < 8w + 8 (truncation) |
| Predictions.SuccessTenths | analysis.py:167 | the success probability, in tenths, lies in 6..10; it is 10 exactly at gap 0 and 6 exactly at \|gap\| >= 4; otherwise it is 10 − \|gap\| |
| Predictions.SuccessMonotone | analysis.py:167 | a larger gap never has a larger success probability |
| Predictions.Predict | analysis.py:155-178 | no prediction for a non-deficit row, and `SkillNotFound` only for a deficit row with a missing skill; otherwise the prediction carries the stored hours, the success tenths, truncated weeks, ids, levels and tier |
| Predictions.PredictAllSnoc | analysis.py:155-178 | one more row extends the predictions by its prediction, leaves them unchanged, or fails |
| Predictions.PredictAllFailurePersists | analysis.py:155-178 | a failed skill lookup ends the loop with that failure |
| Predictions.PredictAll | analysis.py:154-178 | definition: on success at most one prediction per row; further properties are lemmas PredictAllShape, PredictAllMatches, PredictAllSucceeds |
| Predictions.PredictAllSucceeds | analysis.py:155-171 | the predictions succeed exactly when every deficit row's skill exists |
| Predictions.PredictAllMatches | analysis.py:154-178 | one prediction per deficit row, in order |
| Predictions.PredictAllShape | analysis.py:154-184 | one prediction per deficit row, in order, and total hours = the deficits' stored hours |
| Predictions.SameHours | analysis.py:184 | lists with matching hours have equal totals |
| Predictions.DeficitsMembers | analysis.py:156 | the deficits of a list are exactly its rows with a negative gap |
| Predictions.Deficits | analysis.py:156 | definition: the deficit rows, never more than the rows; membership is lemma DeficitsMembers, order and multiplicity are lemmas DeficitsAppend, DeficitsSingle |
| Predictions.DeficitsAppend | analysis.py:155-156 | the deficits of a concatenation are the deficits of each part, concatenated: stored order is kept |
| Predictions.DeficitsLast | analysis.py:155-156 | the deficits of a non-empty list are those of all but the last row, followed by the last row when its score is negative |
| Predictions.DeficitsSingle | analysis.py:156 | a single row is a deficit once when its score is negative, otherwise dropped |
| Predictions.StoredHoursOfConsistent | analysis.py:66 | on analysis-written rows, the deficits' hours are all of the rows' hours |
| Predictions.PredictionsContents | analysis.py:145-184 | a successful answer predicts every deficit of the employee and nothing else; on analysis-written rows its total is all the employee's stored hours |
| Predictions.PredictionsSpec | analysis.py:145-191 | definition of the answer: an unknown employee is `EmployeeNotFound`; on success the requested id and at most one prediction per stored row of the employee; further properties are lemma PredictionsContents |
| Predictions.SkillPredictions | analysis.py:145-191 | the loop method answers exactly `PredictionsSpec` |

## Left out

- Flask routing, `request.get_json`, `jsonify` and HTTP status codes. These are I/O plumbing; each handler's exception path becomes a `Failure` value.
- SQLAlchemy sessions, query construction and `commit`. The gap table is a map (`StoreState`) held by `Store`. Other tables are the `Database` value. Query results are sequences whose order is taken as given.
- The database's uniqueness of primary keys. Employee ids are taken from the input sequence as they come. The store-effect lemma assumes the ids are distinct (`DistinctIds`).
- `datetime.utcnow()`. It is the parameter `now`; the idempotence lemma compares tables up to these stamps.
- The per-row clock readings. The source reads the clock once per row: on an overwrite at analysis.py:80, and through the column default (models.py:143) when a new row is flushed. The model stamps every row of a run with the same `now`, so it does not capture rows of one run carrying different stamps.
- The `gap_score` column type. It is `db.Float` (models.py:140), so the responses carry values such as `-2.0`; the model keeps the score as an integer, which is the difference of two integer levels.
- Duplicate gap rows. The gap table has no unique constraint on (employee, skill) (models.py:133-143); only the look-up-then-insert step keeps one row per pair. The model's table is a map keyed by that pair, so it cannot represent two rows for one pair, such as two overlapping runs could create.
- Concurrency. Requests are modelled one at a time, each on the state the previous one left.
- Predictions.SuccessTenths: models `max(0.6, 1.0 - |gap| * 0.1)` rounded to two places as exact tenths. Binary floating point is not modelled.
- The `average_success_probability` mean (`np.mean`, `round`). This is floating-point arithmetic; the report model carries no average.
- The experience and role-level factors of `get_skill_predictions`. They are constant 1.0, so hours pass through unchanged, and `int()` of the hours is the hours.
- The in-place `recommendations.sort(...)`. The sort is modelled on values, as a stable insertion sort (`RecommendationOrder.SortDesc`). The model does not capture the in-place update of the Python list.
- Recommendations.Capitalize: handles ASCII letters only. Python's Unicode case mapping is not modelled.
- A `priority` field sent as JSON `null`, or a non-integer `employee_id` (strings, booleans, floats). The model takes the filter as a string and the id as an optional integer.
- The matplotlib backend selection (analysis.py:1-8). It is a library side effect.
- The CRUD endpoints (employees.py, skills.py), sample-data loading, app configuration and the browser client. They carry no analysis logic.
