# IEEE quiz backend, modelled in Dafny

This project models the server of a daily IEEE trivia quiz. The server is a
single edge function, `src/supabase/functions/server/index.tsx`. It has these parts:

- a fixed bank of ten multiple-choice questions;
- signup, which creates a user record;
- a once-per-local-calendar-day gate on taking the quiz;
- a question route that hands out the bank shuffled and without answer keys;
- a submit route that grades a sheet of answers, awards tier and speed badges and XP, and folds the result into the user's record;
- a leaderboard of everyone who has scored, ordered by score, then XP, then finishing time.

Each route becomes a pure function in the model over the key-value store
(a `map<string, UserRecord>`). Every route except signup also takes the
caller's identity. Signup and submission change the store, so they return a
`Result` together with the store they leave behind. The eligibility and
question routes only read the store and return a bare `Result`. The
leaderboard route also takes the order in which reading all `user:` keys
visits the store, and returns a bare `Result`.
The clock, the local time zone, the random shuffle and the identity provider's
answers are parameters.

Modules, one per file:

| file | module | contents |
|---|---|---|
| `common.dfy` | `Common` | `Option`, `Result`, and the order-preserving duplicate removal `Dedup` that spreading a `Set` performs |
| `question_bank.dfy` | `QuestionBank` | the ten questions, lookup by id, key stripping, and distribution in a shuffled order |
| `scoring.dfy` | `Scoring` | the grading loop, the reference grading it computes, badges and XP |
| `users.dfy` | `Users` | the user record, signup's initial record, and the merge of an attempt into a record |
| `eligibility.dfy` | `Eligibility` | local-day truncation and the daily gate |
| `leaderboard.dfy` | `Leaderboard` | the filter, a stable insertion sort, and rank numbering |
| `server.dfy` | `Server` | the five route handlers and the properties that span routes |

### Behaviour as written

The model follows the code in these places, including where a reader might expect otherwise:

- The bank's points add up to 115: seven questions worth 10 and three worth 15. A perfect run in 90 seconds therefore earns 115 points and 2 × 115 + 100 + 30 = 360 XP.
- Submitting for a caller with no stored record is not an error. The grade is returned with `user: null`, and nothing is written.
- Submission does not check the daily gate. Only the eligibility route and the question route do.
- The question route lets a caller without a stored record through. The eligibility route answers 404 for the same caller.
- Answers are not deduplicated, so a repeated correct answer counts every time. Eleven copies of one correct answer give 11 correct answers and 110 points. "Perfect Score" demands exactly as many correct answers as there are questions, so that sheet earns "IEEE Expert".
- Badges are a list, not a set. Held badges stay first and keep their order.
- "Speed Demon" needs a truthy `timeSpent`, so a time of 0 does not earn it. A negative time does.

## Model

| member | source | states |
|---|---|---|
| `Common.Dedup` | src/supabase/functions/server/index.tsx:357 | `[...new Set(xs)]`: the result has no repeats and holds exactly the elements of the input |
| `Common.DedupKeepsDistinctPrefix` | src/supabase/functions/server/index.tsx:357 | spreading a `Set` built from a repeat-free list followed by more items starts with that list unchanged |
| `Common.DedupAbsorbs` | src/supabase/functions/server/index.tsx:357 | adding only items already in a repeat-free list leaves the deduplicated list equal to that list |
| `Common.DedupOfDistinct` | src/supabase/functions/server/index.tsx:357 | deduplicating a list without repeats returns it unchanged |
| `Common.DedupPrefix` | src/supabase/functions/server/index.tsx:357 | deduplication of `a + b` begins with the deduplication of `a` |
| `QuestionBank.BankLayout` | src/supabase/functions/server/index.tsx:31-102 | ten questions; question `k + 1` is at position `k` and its key is the k-th entry of 0,0,0,2,1,2,1,0,2,2 |
| `QuestionBank.BankUniqueIds` | src/supabase/functions/server/index.tsx:31-102 | no two questions share an id |
| `QuestionBank.BankWellFormed` | src/supabase/functions/server/index.tsx:31-102 | every question has four options, a key that indexes one of them, and positive points |
| `QuestionBank.BankPoints` | src/supabase/functions/server/index.tsx:31-102 | questions 1 to 7 are worth 10 points, questions 8 to 10 are worth 15 |
| `QuestionBank.BankMaxScore` | src/supabase/functions/server/index.tsx:31-102 | the points add up to 115 |
| `QuestionBank.Find` | src/supabase/functions/server/index.tsx:324 | `find` by id returns a bank question carrying that id, and returns nothing exactly when no question carries it |
| `QuestionBank.FindFirst` | src/supabase/functions/server/index.tsx:324 | the question found is the first one in bank order with that id |
| `QuestionBank.FindAt` | src/supabase/functions/server/index.tsx:324 | with unique ids, looking up a question's own id returns that question |
| `QuestionBank.Distribute` | src/supabase/functions/server/index.tsx:284-292 | the handed-out list has one entry per bank question, each the key-free projection of a bank question; every bank question appears; ids stay distinct |
| `QuestionBank.DistributePermutes` | src/supabase/functions/server/index.tsx:284-292 | the handed-out list is a permutation of the key-free bank |
| `QuestionBank.Strip` | src/supabase/functions/server/index.tsx:287-292 | the public projection `{id, question, options, points}` without the answer key; `QuestionBank.DistributedMatchBank` ties it back to the graded question |
| `QuestionBank.DistributedMatchBank` | src/supabase/functions/server/index.tsx:284-292 | every question handed out is the projection of the question that grading later finds under its id |
| `QuestionBank.ShuffleCovers` | src/supabase/functions/server/index.tsx:285-286 | a shuffle order (injective, in range, of full length) reaches every position |
| `Scoring.RawScore` | src/supabase/functions/server/index.tsx:323-330 | the sum of the points of the correctly answered questions; not negative when no question has negative points |
| `Scoring.CorrectCount` | src/supabase/functions/server/index.tsx:323-330 | the number of correct answers is between 0 and the number of answers submitted |
| `Scoring.ScoreAnswers` | src/supabase/functions/server/index.tsx:317-330 | the grading loop computes the reference score and correct count, and XP of exactly twice the score |
| `Scoring.GradingAppend` | src/supabase/functions/server/index.tsx:323-330 | score and count are additive over concatenated answer sheets |
| `Scoring.DuplicatesCountTwice` | src/supabase/functions/server/index.tsx:323-330 | submitting a sheet twice over doubles the score and the count |
| `Scoring.Known` | src/supabase/functions/server/index.tsx:324-325 | keeps exactly the answers whose question id exists in the bank |
| `Scoring.UnknownIdsIgnored` | src/supabase/functions/server/index.tsx:324-325 | dropping answers with unknown ids changes neither score nor count |
| `Scoring.HitsAtMostOnce` | src/supabase/functions/server/index.tsx:323-330 | when answer ids are distinct, one question is credited at most once |
| `Scoring.GradingSplit` | src/supabase/functions/server/index.tsx:323-330 | with unique bank ids, grading splits into the first question's share plus grading against the rest of the bank |
| `Scoring.GradingBounded` | src/supabase/functions/server/index.tsx:323-330 | when answer ids are distinct, the score is at most the bank's total points and the count is at most the number of questions |
| `Scoring.GradingReachesMax` | src/supabase/functions/server/index.tsx:323-330 | a sheet with distinct ids that answers every question correctly reaches that bound exactly |
| `Scoring.BankScoreBounded` | src/supabase/functions/server/index.tsx:323-330 | on the shipped bank, such a sheet scores between 0 and 115 with at most 10 correct answers |
| `Scoring.PerfectSheetScoresAll` | src/supabase/functions/server/index.tsx:323-330 | the sheet choosing every key scores every point and counts every question |
| `Scoring.Evaluate` | src/supabase/functions/server/index.tsx:317-350 | a graded attempt: score and count are the reference grading; XP is 2 × score plus the tier bonus plus 30 when the speed badge is earned; "Speed Demon" is present exactly when the time is present, non-zero and under 120, and is then last; "Perfect Score" is present exactly when every question counts as correct |
| `Scoring.EvaluateBadges` | src/supabase/functions/server/index.tsx:332-350 | the badges are exactly the tier badge, if any, followed by "Speed Demon" when earned; so no badge repeats and at most one tier badge is earned |
| `Scoring.TierOf` | src/supabase/functions/server/index.tsx:333-345 | the top tier is reached exactly when every question counts as correct; below that, no tier is reached exactly when fewer than 4 answers are correct |
| `Scoring.TierBonus` | src/supabase/functions/server/index.tsx:333-345 | the tier bonus lies between 0 and 100 and is 0 exactly when no tier is reached |
| `Scoring.TierBadge` | src/supabase/functions/server/index.tsx:333-345 | a reached tier awards exactly one badge, one of the four tier badges; no tier awards none |
| `Scoring.EarnsSpeedDemon` | src/supabase/functions/server/index.tsx:347 | `timeSpent && timeSpent < 120`: a present, non-zero time under 120; `Scoring.SpeedIndependentOfTier` shows it depends on the time alone |
| `Scoring.Grade` | src/supabase/functions/server/index.tsx:317-350 | the imperative badge and bonus code gives the same attempt as `Evaluate` |
| `Scoring.TierMonotone` | src/supabase/functions/server/index.tsx:333-345 | up to the number of questions, more correct answers never earn a smaller tier bonus |
| `Scoring.SpeedIndependentOfTier` | src/supabase/functions/server/index.tsx:333-350 | the time never changes the score or the tier badge, and the answers never change whether the speed badge is earned |
| `Scoring.RepeatedAnswerMissesPerfect` | src/supabase/functions/server/index.tsx:323-336 | eleven copies of one correct answer give 11 correct, 110 points and only "IEEE Expert" |
| `Scoring.PerfectSheetOutcome` | src/supabase/functions/server/index.tsx:317-350 | the perfect sheet earns every point, "Perfect Score" and 100 bonus XP, plus the speed badge exactly when the time qualifies |
| `Scoring.RightAnswerCredit` | src/supabase/functions/server/index.tsx:324-328 | with unique ids, the right answer to a question is correct and earns exactly that question's points |
| `Scoring.RightAnswersInOrder` | src/supabase/functions/server/index.tsx:323-330 | right answers to the first m questions, each worth p points, earn m × p points and m correct |
| `Scoring.PerfectRunInNinetySeconds` | src/supabase/functions/server/index.tsx:317-350 | all ten right in 90 s: 115 points, 10 correct, badges "Perfect Score" then "Speed Demon", and 360 XP |
| `Scoring.FiveRightInFiveMinutes` | src/supabase/functions/server/index.tsx:317-350 | five 10-point questions right in 300 s: 50 points, only "IEEE Enthusiast", and 110 XP |
| `Users.NewUser` | src/supabase/functions/server/index.tsx:128-138 | the signup record has zero score and XP, no badges, no attempt yet, and the given id, name, email and signup time; the given membership, or `non-ieee-member` when none is given; the avatar URL is the avatar service's base followed by the name |
| `Users.MergeBadges` | src/supabase/functions/server/index.tsx:357 | merged badges have no repeats, hold every old and every earned badge, and keep a repeat-free old list first and in order |
| `Users.ApplyAttempt` | src/supabase/functions/server/index.tsx:353-362 | best score becomes the larger of the old and new scores; XP grows by the XP earned; badges are merged; last attempt time and time spent are overwritten; nothing else changes |
| `Users.ApplyAttemptKeepsValid` | src/supabase/functions/server/index.tsx:353-362 | an attempt with no negative XP keeps a record's totals non-negative and its badges repeat-free |
| `Users.ReearnedBadgesChangeNothing` | src/supabase/functions/server/index.tsx:357 | earning only badges already held leaves the badge list exactly as it was |
| `Eligibility.DayOf` | src/supabase/functions/server/index.tsx:237-238 | the local calendar day of an instant, by flooring the offset instant to whole days; `Eligibility.DayOfBounds` proves what it names |
| `Eligibility.CanTakeQuiz` | src/supabase/functions/server/index.tsx:232-246 | the gate is open when no attempt is recorded or the last attempt fell on a different local day; `Eligibility.BlockedUntilNextMidnight` proves it shut exactly until the next local midnight |
| `Eligibility.DayOfBounds` | src/supabase/functions/server/index.tsx:237-238 | the local day of an instant names the 24-hour window that contains it |
| `Eligibility.DayOfMonotone` | src/supabase/functions/server/index.tsx:237-238 | a later instant never falls on an earlier local day |
| `Eligibility.BlockedUntilNextMidnight` | src/supabase/functions/server/index.tsx:232-246 | after an attempt, the gate is shut exactly until the next local midnight |
| `Eligibility.SameDayWithinADay` | src/supabase/functions/server/index.tsx:232-246 | a shut gate means the last attempt was less than 24 hours away |
| `Eligibility.StaysOpen` | src/supabase/functions/server/index.tsx:232-246 | once the gate opens after an attempt, it stays open |
| `Leaderboard.FinishTime` | src/supabase/functions/server/index.tsx:395 | `lastQuizAt || createdAt`: the last attempt, or the signup time when there is none |
| `Leaderboard.RanksNoLater` | src/supabase/functions/server/index.tsx:392-396 | the comparator does not put `b` first: higher score, then higher XP, then the earlier finishing time; `Leaderboard.RanksNoLaterTotalPreorder` proves it a total preorder |
| `Leaderboard.RanksNoLaterTotalPreorder` | src/supabase/functions/server/index.tsx:392-396 | the comparator orders every pair and is transitive; two users tie both ways exactly when score, XP and finishing time are all equal |
| `Leaderboard.Qualified` | src/supabase/functions/server/index.tsx:391 | the filter's output holds only users with a positive score and is no longer than its input |
| `Leaderboard.QualifiedContents` | src/supabase/functions/server/index.tsx:391 | the filter keeps each user with a positive score as often as listed, and drops everyone else |
| `Leaderboard.QualifiedKeepsScorers` | src/supabase/functions/server/index.tsx:391 | filtering a list of scorers changes nothing |
| `Leaderboard.Insert` | src/supabase/functions/server/index.tsx:392-396 | inserting into a sorted list gives a sorted list with one more copy of the user |
| `Leaderboard.Sort` | src/supabase/functions/server/index.tsx:392-396 | the sort returns a sorted permutation of its input |
| `Leaderboard.Ranked` | src/supabase/functions/server/index.tsx:389-396 | the ranked list is sorted, and everyone on it has a positive score |
| `Leaderboard.RankedContents` | src/supabase/functions/server/index.tsx:389-396 | the ranked list holds every listed user with a positive score, as often as listed, and nobody else |
| `Leaderboard.RankedMembers` | src/supabase/functions/server/index.tsx:389-396 | a user is ranked exactly when listed with a positive score |
| `Leaderboard.SortSorted` | src/supabase/functions/server/index.tsx:392-396 | sorting an already sorted list leaves it as it is, so ties keep their order |
| `Leaderboard.RankedIdempotent` | src/supabase/functions/server/index.tsx:389-396 | ranking the ranked list again changes nothing |
| `Leaderboard.SortedKeysUnique` | src/supabase/functions/server/index.tsx:392-396 | two sorted lists of the same users agree on score, XP and finishing time at every position |
| `Leaderboard.RankingUpToTies` | src/supabase/functions/server/index.tsx:389-396 | the listing order changes only the order of users tied on score, XP and finishing time |
| `Leaderboard.RankedDeterminedByDistinctKeys` | src/supabase/functions/server/index.tsx:389-396 | for any listing, whatever its order and whoever else it holds: when its scorers, sorted with pairwise distinct keys, form a list, the ranking is exactly that list |
| `Leaderboard.TieOnScoreBrokenByXp` | src/supabase/functions/server/index.tsx:389-406 | scores 80/80/50 with XP 10/20/5 rank the 80/20 user first, the 80/10 user second, and the 50/5 user third |
| `Leaderboard.ReportedTime` | src/supabase/functions/server/index.tsx:405 | a zero or missing time is reported as null; any other time is reported unchanged |
| `Leaderboard.ToEntry` | src/supabase/functions/server/index.tsx:397-406 | a row carries the rank and the user's id, name, avatar, score, XP and badges, with the time reported through `Leaderboard.ReportedTime` |
| `Leaderboard.Number` | src/supabase/functions/server/index.tsx:397-398 | rows are numbered consecutively from the given first rank |
| `Leaderboard.Standings` | src/supabase/functions/server/index.tsx:389-406 | one row per ranked user; ranks run 1 to n; every score is positive; scores never rise down the table, and within a score XP never rises |
| `Server.SignUp` | src/supabase/functions/server/index.tsx:105-145 | a missing name, email or password is refused, and so is a signup the identity provider rejects; otherwise the record `Users.NewUser` builds for the new id is stored under `user:<id>` and returned, and nothing else in the store changes |
| `Server.CheckEligibility` | src/supabase/functions/server/index.tsx:215-249 | 401 for no caller; 404 for no record; otherwise "can take" exactly when the gate is open, and the last attempt is reported when it is shut |
| `Server.FetchQuestions` | src/supabase/functions/server/index.tsx:257-294 | 401 for no caller; refused exactly when a record exists and its gate is shut; otherwise all ten questions without keys |
| `Server.SubmitQuiz` | src/supabase/functions/server/index.tsx:302-371 | 401 for no caller; 400 when there is no answers array; otherwise the graded attempt, and the merged record when one is stored; a failure or a missing record writes nothing |
| `Server.KeyOrder` | src/supabase/functions/server/index.tsx:389 | an order in which reading all `user:` keys visits the store: every stored key exactly once, and no other key |
| `Server.Listing` | src/supabase/functions/server/index.tsx:389 | `getByPrefix("user:")`: entry `i` is the record under the `i`-th key, so there is one entry per key, and every stored record is listed |
| `Server.GetLeaderboard` | src/supabase/functions/server/index.tsx:379-408 | refused exactly when there is no caller; otherwise the standings of the store's records read in key order, where row `i` is numbered `i + 1` and shows a stored record with a positive score |
| `Server.LeaderboardShowsScorers` | src/supabase/functions/server/index.tsx:389-406 | a stored record has a row on the leaderboard exactly when its score is positive |
| `Server.FetchAgreesWithCheck` | src/supabase/functions/server/index.tsx:215-282 | for a stored user, the question route refuses exactly when the eligibility route reports "already taken"; without a record, eligibility answers 404 while questions are handed out |
| `Server.SubmitMonotone` | src/supabase/functions/server/index.tsx:352-362 | a submission keeps every record valid and adds or removes no key; it never lowers a best score or XP, never drops a badge, and never reorders held badges |
| `Server.SubmitIgnoresGate` | src/supabase/functions/server/index.tsx:302-315 | a caller who already took today's quiz can still submit, and is graded and recorded |
| `Server.SubmitClosesTheDay` | src/supabase/functions/server/index.tsx:232-249 | after a recorded submission, eligibility reports "already taken" until the next local midnight and "can take" from then on |
| `Server.SecondFetchSameDayRefused` | src/supabase/functions/server/index.tsx:269-282 | after a recorded submission, a second fetch is refused until the next local midnight and served from then on |
| `Server.ScorerJoinsLeaderboard` | src/supabase/functions/server/index.tsx:353-406 | after a recorded submission that scores, the leaderboard read from the resulting store has a row for the caller's updated record |
| `Server.NewUserEligibleAndUnranked` | src/supabase/functions/server/index.tsx:128-140 | a user who has just signed up may take the quiz and is on no leaderboard |

## Left out

- HTTP transport (lines 1-28 and 443-447): routing, CORS, logging, JSON encoding and status codes. Errors are an `ApiError` datatype instead, and the health route is not modelled.
- Internal errors (the 500 replies) are left out. These come from exceptions: a malformed JSON body, a `null` answer element (any other non-object element has no `questionId` and is skipped like an unknown id), or a stored record without a `badges` array.
- The identity provider (`createUser`, `getUser`) is foreign code. The caller's resolved id is an `Option<string>` input. Signup's provider outcome is an input too: the new id, or a refusal.
- The login route and the user-profile route (lines 152-212) are left out. They only read a record back and do not change state.
- The contact form (lines 415-440) stores an unrelated message and does not touch quiz state.
- The key-value store module is not part of this model. The store is a `map<string, UserRecord>`, and `getByPrefix("user:")` reads the record under each key (`Server.Listing`) in a key order the leaderboard route takes as a parameter, since the store's own order is not specified.
- `Math.random` shuffling is a permutation passed in as a parameter. Sorting in place also reorders the module-level array for later requests. That is not modelled, because questions are found by id and the bank's length does not change.
- Time: instants are whole milliseconds, and the server's local time zone is a fixed offset from UTC. Daylight-saving changes are left out. Timestamps are stored as numbers rather than ISO strings.
- JavaScript truthiness: a missing text field and an empty string are both the empty string. A missing `timeSpent` is `None`, and a value that is not a number is not modelled.
- `Server.SignUp`: the reply carries the whole stored record rather than the four fields `id`, `name`, `email` and `avatar`.
- Concurrent submissions that race on the read-merge-write of one record are left out. Every route is one atomic step.
- The React front end is left out.
