# Rate-Classmates backend core in Dafny

This project models the core of the Rate-Classmates Django backend:
- the request helpers of `backend/core/utils.py`;
- the schema and its constraints from `backend/core/models.py`;
- the views of `backend/core/views.py` that write or rank data.

The models cover:

- **Ratings.** A rater scores a student. Submitting again for the same (rater, target) pair overwrites the earlier rating (`update_or_create`). In the same transaction the student's `rating_summary` row is recomputed from all of that student's ratings.
- **Averages.** Averages are held as integer hundredths. They are rounded to the nearest hundredth with ties going to the even neighbour, which is the rounding of Python's default `Decimal` context.
- **Leaderboards.**
  - The student board lists the students whose summary has `rating_count > 0`. It is ordered by (average desc, count desc), cut at ten rows, and ranked 1..N by position.
  - The school board gives one row per school that has students: the rating-weighted mean of its students' averages, or 0 when none of them is rated. It is sorted in place and cut at ten rows.
- **Applications.**
  - School and student applications start as `pending`.
  - A PATCH may set any of the three statuses.
  - Approving a school application creates the school unless a school of that name exists. The name comparison is SQLite's `iexact`, which ignores ASCII case.
  - Approving a student application creates the student unless one with the same name, school and grade exists.

**Modules.** Each `.dfy` file holds one module:
- `Utils`: `parse_json`, `api_response`, `allow_methods`, `require_auth`, `require_admin`.
- `Models`: entities, choices and column and unique constraints.
- `Decimal`: half-even rounding.
- `Ratings`: upsert and aggregate, plus the imperative `update_or_create`.
- `Applications`: the onboarding side effects.
- `Leaderboard`:
  - the student board is pure;
  - the school board is a method with an in-place array sort.
- `Store`: the database as a class, one method per view.
- `Wrappers`, `Seqs`: helpers.

**Environment parameters.** Fresh UUIDs are parameters, with a precondition that they are unused. The orders in which the database scans students and emits its GROUP BY groups are also parameters; the leaderboard properties hold for every such order.

**Request bodies.** Views receive the decoded body fields as `Option` values: `None` stands for an absent key or JSON `null`. A field counts as given when Python treats it as true:
- a string field must be non-empty;
- a number field must be non-zero.

**Where the code differs from its own validators and declarations, or from what one might expect:**
- **Rounding.** Averages are rounded half-even (`Decimal.quantize` in the default context), not half-up. `Ratings.HalfEvenTie` shows eight ratings summing to 9, a mean of exactly 1.125, stored as 1.12 where half-up would give 1.13.
- **Score range.** The view rejects only a missing or zero score. The 1..5 validators on `Rating.score` are never run, because `save()` does not call `full_clean()`. So a score of 6 is stored and averaged.
  - A negative score fails the database's `score >= 0` check.
  - An average that does not fit `DecimalField(max_digits=3, decimal_places=2)` fails the save.
  - Either failure rolls the transaction back (`Store.Store.SubmitRating`, `Store.FormAdmitsScoresOutsideRange`).
- **Statuses.** A decided application can be set back to `pending`, or decided again. Re-approval never duplicates a school or a student.
- **Login.** `login_view` answers with the user but writes nothing into the session.

## Model

| member | source | states |
|---|---|---|
| Utils.ParseJson | backend/core/utils.py:8-12 | an empty body reads as `{}`, an unparsable body yields the empty object, otherwise the parsed value |
| Utils.ParseJsonTotal | backend/core/utils.py:8-12 | for a body already decoded to text, the result is the parser's value or the empty object: a parse error is caught, never raised |
| Utils.ApiResponse | backend/core/utils.py:15-16 | the envelope carries code, message and data; the HTTP status is the given non-zero status, else the code |
| Utils.Success | backend/core/utils.py:15-16 | the default answer has code and status 200 and carries the data |
| Utils.Failure | backend/core/utils.py:15-16 | an error answer has code and status equal and no data |
| Utils.AllowMethods | backend/core/utils.py:19-28 | a method outside the list gets 405 and the view is not run; otherwise the view's answer is returned unchanged |
| Utils.RequireAuth | backend/core/utils.py:31-41 | a session without `user_id` gets 401; any other request reaches the view |
| Utils.RequireAdmin | backend/core/utils.py:44-56 | a missing `user_id` gets 401; a signed-in non-admin gets 403; only an admin reaches the view |
| Utils.GuardsDoNotRunView | backend/core/utils.py:19-56 | when a guard answers, the answer does not depend on the view behind it |
| Utils.AdminIsAuthThenRole | backend/core/utils.py:31-56 | `require_admin` equals `require_auth` followed by the role check |
| Models.ParseRole | backend/core/models.py:9-16 | a role text is accepted iff it is "user" or "admin", and maps back to the same text |
| Models.RoleNamesRoundTrip | backend/core/models.py:9-11 | role names round-trip and are distinct |
| Models.ParseStatus | backend/core/models.py:218-228 | a status text is accepted iff it is pending, approved or rejected, and maps back to the same text |
| Models.StatusNamesRoundTrip | backend/core/models.py:245-255 | status names round-trip and are pairwise distinct |
| Models.AtMostOneRatingPerPair | backend/core/models.py:76-80 | under `unique_rating_per_target` a (rater, target) pair has at most one rating |
| Models.OneStudentBadgePerPeriod | backend/core/models.py:149-151 | under `unique_student_badge_period` a student holds a badge at most once per period |
| Models.OneSchoolBadgePerPeriod | backend/core/models.py:171-173 | under `unique_school_badge_period` a school holds a badge at most once per period |
| Models.OneEntryPerStudent | backend/core/models.py:205-207 | under `unique_leaderboard_student` a student appears at most once per leaderboard |
| Decimal.RoundHalfEven | backend/core/views.py:186 | the result is within half a unit of n/d, and even on a tie |
| Decimal.RoundHalfEvenUnique | backend/core/views.py:186 | no other integer is nearest-with-ties-to-even, so the rounding is fully determined |
| Decimal.RoundHalfEvenExact | backend/core/views.py:186 | an exact quotient is returned unchanged |
| Decimal.RoundHalfEvenBetween | backend/core/views.py:186 | rounding stays inside any integer interval that contains the quotient |
| Ratings.Lookup | backend/core/views.py:173-177 | the lookup finds a rating of the pair when one exists, and finds nothing only when none does |
| Ratings.FindRating | backend/core/views.py:173-177 | the loop returns -1 iff the pair has no rating, else the index of its first rating |
| Ratings.UpdateOrCreate | backend/core/views.py:173-177 | the imperative update-or-insert yields the upserted table and the id `update_or_create` returns; the pair's row then holds the new score and comment |
| Ratings.UpsertAtFirstMatch | backend/core/views.py:173-177 | an existing rating is updated in place, keeping its id and position |
| Ratings.UpsertWithoutMatch | backend/core/views.py:173-177 | a new pair is appended under the fresh id |
| Ratings.UpsertLeavesOneRating | backend/core/views.py:173-177 | afterwards the pair has exactly one rating, holding the new score and comment |
| Ratings.UpsertKeepsOtherPairs | backend/core/views.py:173-177 | ratings of every other pair are unchanged |
| Ratings.UpsertKeepsOtherTargets | backend/core/views.py:173-183 | no other student's scores change |
| Ratings.UpsertCount | backend/core/views.py:173-187 | the target's rating count grows by one for a new rater and is unchanged on resubmission |
| Ratings.UpsertIdempotent | backend/core/views.py:173-177 | submitting the same rating twice gives the table of one submission |
| Ratings.UpsertRows | backend/core/views.py:173-177 | every row afterwards is an old row or the pair's row with the new score |
| Ratings.UpsertKeepsPairsUnique | backend/core/models.py:78-80 | the upsert keeps (rater, target) unique |
| Ratings.UpsertKeepsIdsUnique | backend/core/models.py:63 | the upsert keeps rating ids unique and uses no id but the old ones and the fresh one |
| Ratings.Aggregate | backend/core/views.py:179-187 | the summary counts the target's ratings, and its average is 0 when there are none |
| Ratings.AggregateNearMean | backend/core/views.py:179-187 | the stored average is within half a hundredth of the exact mean, and even on a tie |
| Ratings.AggregateIsRoundedMean | backend/core/views.py:179-187 | any value that is nearest-with-ties-to-even is the stored average, the converse of AggregateNearMean |
| Ratings.CountIsDistinctRaters | backend/core/views.py:179-187 | under the unique pair constraint, `rating_count` is the number of distinct raters |
| Ratings.SummaryWithinScoreRange | backend/core/models.py:66-71 | when all the target's scores are 1..5, its average lies in 1.00..5.00 and fits the avg_score column |
| Ratings.WorkedExampleThreeRaters | backend/core/views.py:179-187 | scores 5, 3, 4 give a summary of 4.00 over 3 ratings |
| Ratings.WorkedExampleNewRater | backend/core/views.py:173-187 | a fourth rater scoring 2 gives 3.50 over 4 |
| Ratings.WorkedExampleResubmission | backend/core/views.py:173-187 | a rater changing 5 to 1 gives 2.50 over 4, without a fifth rating |
| Ratings.HalfEvenTie | backend/core/views.py:186 | any eight ratings of a student summing to 9 (mean exactly 1.125) are stored as 1.12 over 8, not 1.13 |
| Applications.OnboardSchool | backend/core/views.py:292-296 | existing schools are kept; only the fresh id can be added, holding the application's name |
| Applications.OnboardSchoolAddsIff | backend/core/views.py:292-296 | a school is created iff the decision is approval and no name matches ignoring ASCII case; after an approval a matching school exists |
| Applications.ReapprovalAddsNoSchool | backend/core/views.py:292-296 | approving the same application again creates no second school |
| Applications.OnboardSchoolKeepsNamesUnique | backend/core/models.py:31 | onboarding never violates the unique school name |
| Applications.OnboardStudent | backend/core/views.py:366-378 | existing students are kept; only the fresh id can be added, holding the application's name, school and grade |
| Applications.OnboardStudentAddsIff | backend/core/views.py:366-378 | a student is created iff the decision is approval and no student has the same (name, school, grade) |
| Applications.ReapprovalAddsNoStudent | backend/core/views.py:366-378 | approving again creates no second student |
| Applications.OnboardStudentKeepsDistinct | backend/core/views.py:366-378 | onboarding never creates two students with the same (name, school, grade) |
| Leaderboard.StudentToDict | backend/core/views.py:70-80 | the view shows the student's own fields, the school name or "", and the summary's average and count or 0 and 0 |
| Leaderboard.CandidatesAreEligible | backend/core/views.py:409-413 | a row is a candidate iff it renders a scanned student whose summary has `rating_count > 0` |
| Leaderboard.CandidateIdsDistinct | backend/core/views.py:409-413 | scanning each student once yields each candidate once |
| Leaderboard.OrderByScoreSorted | backend/core/views.py:413 | the ORDER BY keeps the candidates (as a multiset) and sorts them by (avg desc, count desc) |
| Leaderboard.TopOfSortedIsTopTen | backend/core/views.py:406-413 | the first ten of a sorted reordering are a top ten of the pool (see the next row) |
| Leaderboard.StudentBoardCorrect | backend/core/views.py:409-421 | the student board is a top ten of the eligible students (see below) and ranks run 1..N by position, even across ties |
| Leaderboard.SchoolEntryFor | backend/core/views.py:386-403 | a school's count is the sum of its students' counts; its average is 0 when that sum is 0, and otherwise within half a hundredth of the weighted mean and even on a tie |
| Leaderboard.SchoolEntryIsRoundedMean | backend/core/views.py:396-403 | conversely, any value nearest the weighted mean with ties to even is the school's average, so it is exactly the half-even rounding |
| Leaderboard.TotalScoreBetween | backend/core/views.py:386-392 | the weighted total lies between lo and hi times the count when every average does |
| Leaderboard.SchoolAverageWithinScoreRange | backend/core/views.py:386-403 | if every stored average is in 1.00..5.00, a rated school's average is too |
| Leaderboard.WeightedSchoolAverage | backend/core/views.py:386-403 | students at 5.00 with 2 ratings and at 1.00 with 8 ratings give 1.80 over 10, not the unweighted 3.00 |
| Leaderboard.UnratedSchoolShowsZero | backend/core/views.py:396-403 | a school none of whose students is rated shows 0 and 0 rather than dividing by zero, whatever other schools' students have |
| Leaderboard.SchoolEntries | backend/core/views.py:394-405 | the loop builds one row per group, in group order |
| Leaderboard.SchoolEntriesPerSchool | backend/core/views.py:386-405 | there is exactly one row per school that has students, and the school ids are distinct |
| Leaderboard.SortByScore | backend/core/views.py:406 | the in-place sort leaves the array ordered by (avg desc, count desc) and a permutation of its old contents |
| Leaderboard.SchoolBoard | backend/core/views.py:385-407 | the school board is a top ten of the per-school rows |
| Store.UserPayload | backend/core/views.py:28-33 | the payload carries the user's id and account, and a role text that parses back to the role |
| Store.FormAdmitsScoresOutsideRange | backend/core/views.py:164-165 | the form check lets 6 and -1 through, though the validators reject them; it stops 0 |
| Store.RatingWriteKeepsConsistent | backend/core/views.py:172-190 | after the write, every summary still equals the aggregate of its student's ratings, and the keys and foreign keys still hold |
| Store.Store.constructor | backend/core/models.py:8-258 | the empty database satisfies every invariant |
| Store.Store.Register | backend/core/views.py:36-47 | 400 if a field is missing or empty, 400 if the account exists, else a new user with role "user"; the invariants hold |
| Store.Store.Login | backend/core/views.py:50-60 | 200 iff some user has exactly this account and password, answering with that user; otherwise 401 |
| Store.Store.SubmitRating | backend/core/views.py:158-192 | 400 unless rater, target and a non-zero score are given; 404 if either row is missing; otherwise the result of the transaction (see SaveRating) |
| Store.Store.SaveRating | backend/core/views.py:172-192 | commits the upsert and the new summary and returns the rating id, or fails with the tables unchanged when the score or the new average does not fit its column |
| Store.Store.CommitRating | backend/core/views.py:172-190 | the rating table becomes the upsert and the target's summary its aggregate; nothing else changes and the invariants hold |
| Store.Store.SubmitSchoolApplication | backend/core/views.py:257-272 | 400 on a missing required field, 404 for an unknown applicant, else a new pending application whose reason defaults to "" |
| Store.Store.DecideSchoolApplication | backend/core/views.py:275-298 | 404 for an unknown application, 400 for a status outside the three, else the status is set and OnboardSchool applied |
| Store.Store.SubmitStudentApplication | backend/core/views.py:329-346 | 400 on a missing field or a zero grade, 404 for an unknown applicant or school, else a new pending application |
| Store.Store.DecideStudentApplication | backend/core/views.py:349-380 | 404 or 400 as for schools, else the status is set and OnboardStudent applied |
| Store.Store.Board | backend/core/views.py:383-422 | `type=school` answers with a top ten of the per-school rows; anything else with the ranked student board |

**Top ten.** In the rows above, a board is a "top ten" of a pool (`Leaderboard.IsTopTen`) when all of the following hold:
- it has min(10, |pool|) rows;
- every row comes from the pool;
- it is sorted;
- no id repeats;
- no pool row left off the board ranks above a row shown.

## Left out

- Utils.ParseJson: the body is modelled as text that is already decoded. Two crash paths are not modelled. A body that is not valid UTF-8 raises `UnicodeDecodeError`, which `parse_json` does not catch, so the request ends in a 500. A body that parses to something other than an object, such as `[]` or `1`, makes the views' `payload.get` calls raise, again a 500.
- JSON decoding of the fields is not modelled. Request fields arrive as typed `Option` values. A number sent as a string or a boolean, and a non-UUID id, are not modelled; in Django the last raises instead of answering 404.
- The GET handlers are left out because they only read: user, school and student lists and details, the rating, badge and student-badge lists, and the application lists with their filters.
- Timestamps (`created_at`, `updated_at`, `last_update`) are left out because they come from the clock. The list orders that depend on them are left out too.
- Badges, school badges, leaderboards and leaderboard entries are modelled only through their unique constraints, because no view writes them.
- Concurrency and transaction isolation are not modelled. Each view is one atomic step on the tables.
- A `null` rating comment is not modelled. A missing comment becomes "". A `null` one would violate NOT NULL and fail the transaction.
- Ratings.Aggregate: the database computes `Avg` as a binary float before quantizing. The model rounds the exact mean half-even. The two differ only when the exact mean lies halfway between two hundredths and is not a binary fraction, such as 2.075 from 40 ratings.
- Leaderboard.SchoolEntryFor: exact arithmetic is used. SQLite's float sums and the 28-digit `Decimal` division are not modelled.
- Leaderboard.SortByScore: stability is not stated. Python's sort keeps tied rows in group order, and the model's adjacent-swap insertion sort does too, but the contract does not say so.
- Store.Store.Login: the query is modelled as a search over the user table. The session write that the login flow would need is absent from the code, so there is nothing to model.
- `backend/import_students.py`, the migration, settings, middleware, URL routes, the admin site and the front end are not part of this model. `backend/core/urls.py` routes names that `views.py` does not define, and no view is wrapped by `require_auth` or `require_admin`.
- Password hashing and CSRF are not modelled. Passwords are stored and compared as plain text, as in the code.
