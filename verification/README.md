# LatinRootsLearner backend — a verified model of its answer, quiz and badge logic

The backend of LatinRootsLearner is an Express server (`server.js`). It keeps user documents in
MongoDB and Latin roots with their definitions in a PostgreSQL table `latin_roots`. This project
models the logic that server carries out itself:

- **Answer events.** `/correct` adds 5 points and `/incorrect` takes 2. Both go through
  `updateUserPoints`, which clamps the score at 0 and updates two per-word lists.
  - `updateCorrectList` drives a per-word state machine: unseen, then counting 1, then counting 2,
    then mastered. A counting entry is an object `{word, count}`. On reaching 3 it is replaced by
    the bare word. The model represents this as `Entry = Counting(word, count) | Mastered(word)`
    (module `Progress`).
  - `updateWrongList` counts misses per word. A correct answer deletes the word's key.
  - The model proves the scoring contract, the per-word state machine, the frame conditions, and
    that every document reachable from an empty collection stays consistent: points never
    negative, one entry per word, counts in 1..2, miss counts at least 1, no badge held twice
    (modules `Scoring` and `Lifecycle`).
- **Quiz answer sets.** After its first SQL query, `/quiz` builds `[correct, ...wrong]`, removes
  duplicates with a `Set`, tops the list up to four answers with further queries, and shuffles
  it (module `Quiz`).
  - Module `QuestionStore` models the first query under PostgreSQL semantics: the row at a
    random offset, and as many other distinct definitions as exist, up to `LIMIT 3`.
  - As written, the top-up query is a `SELECT DISTINCT` ordered by `random()`, an expression
    outside its select list. PostgreSQL refuses such a query, so any round of the top-up loop
    ends in the route's catch with a 500 (`QuestionStore.QuizAsWritten`). The route therefore
    serves a question exactly when the table holds at least four distinct definitions.
  - The corrected top-up (`Quiz.Fill`, `Quiz.TopUpLoop`, `Quiz.ServeQuiz`) issues a valid query,
    modelled as an oracle `draw` constrained to what such a query can return, and stops when a
    round returns no rows. `QuestionStore.ExactOracle` pins that repaired query down exactly:
    `LIMIT` returns as many rows as exist, up to the limit.
  - The loop itself has no exit for a round that adds nothing. With only the query repaired,
    two or three distinct definitions would make it spin (`QuestionStore.SourceLoop`).
  - The shuffle is a sequence of exchanges, and every permutation is reachable.
- **Badges.** `assignBadge` pushes a badge when the user exists and does not already hold it
  (module `Badges`).
- **Quiz results.** `/submitQuiz` appends a result and `/analytics` counts the stored results:
  the correct count is the number of results whose `correct` is truthy, and the two counts
  partition the total (module `UserAnalytics`).
- **Reachable documents.** Module `Lifecycle` runs any sequence of `/register`, `/correct`,
  `/incorrect`, `/awardBadge`, `/submitQuiz` and `/deleteAccount` requests from an empty
  collection. The badge award it runs is the corrected `AssignBadge` (as written, no badge can
  ever be awarded; see Findings).

The user collection is a `map` from email to `User`. Fields the source can leave absent
(`badges`, `quizResults`, `streak`) are `Option`s: `createUser` sets only `email`, `password`,
`points`, `wrongList` and `correctList`.

The guard on a counting entry is a strict `count === 3`, so the model masters a word only when
its count becomes exactly 3. The delete on a correct answer is guarded by the truthiness of the
stored miss count, so `ClearMiss` keeps a key holding 0. No modelled operation ever stores 0.

## Model

| member | source | states |
|---|---|---|
| Progress.FirstCounting | server.js:86 | the index of the first counting object for the word; bare mastered strings never match, and no earlier entry is a counting object for it |
| Progress.DropCounting | server.js:90 | the filter removes exactly the counting objects for the word and keeps every other entry, including bare strings |
| Progress.UpdateCorrectList | server.js:81-98 | a word already mastered leaves the list unchanged; entries about every other word are kept, in order and with their values |
| Progress.CorrectAnswerAppendsUnseen | server.js:86-94 | a correct answer for an unseen word appends `{word, count: 1}` at the end of the list |
| Progress.CorrectAnswerBumpsInPlace | server.js:86-88 | below the third correct answer, the counting entry is bumped by one in the position where it stands and nothing else changes |
| Progress.CorrectAnswerMastersAtEnd | server.js:86-91 | on the third correct answer the counting entry is removed, every other entry keeps its order, and the bare word is appended last |
| Progress.DropCountingWithout | server.js:90 | when the bare word is absent, the `filter` on `entry.word !== word` drops exactly the entries about the word |
| Progress.CorrectAnswerAdvances | server.js:81-98 | on any list, a correct answer moves the word one step: unseen to count 1, count n to n+1, count 2 to mastered, mastered stays |
| Progress.CorrectAnswerFrame | server.js:86-92 | a correct answer for one word leaves the state of every other word unchanged |
| Progress.MasteredNeverReverts | server.js:82-92 | a mastered word stays mastered after any correct answer, for any word |
| Progress.CorrectListKeepsWellFormed | server.js:86-95 | if each word has at most one entry and counts are in 1..2, both still hold after a correct answer |
| Progress.RecordMiss | server.js:100-103 | the word's miss count becomes its old count plus one, an absent key counting as 0; other keys and counts are unchanged |
| Progress.ClearMiss | server.js:66 | a word with a non-zero count loses its key; no other key appears or disappears, and no count changes |
| Users.CreateUser | server.js:42-49 | a new user has the given points, an empty miss map and an empty correct list, and no badges, quiz results or streak |
| Users.Register | server.js:121-140 | an empty email or password is refused; a non-empty pair with an existing email is a conflict and writes nothing; otherwise exactly one user with 0 points is added |
| Scoring.ClampedPoints | server.js:61-62 | the new score is the least value that is non-negative and not below points plus delta |
| Scoring.UpdateUserPoints | server.js:56-79 | a missing user gives null and no write; otherwise the clamped score is returned and stored, the lists change as the answer requires, and nothing else changes |
| Scoring.AnswerCorrect | server.js:169-183 | a missing user gives null and no write; a non-negative score rises by exactly 5; the word moves one step along the mastery state machine |
| Scoring.AnswerIncorrect | server.js:185-199 | a missing user gives null and no write; the score drops by 2, or to 0 when below 2; the word's misses rise by one; the correct list is untouched |
| Scoring.CorrectAnswerClearsMisses | server.js:169-173 | after `/correct`, the word has no miss key whatever its count was; every other key and count is unchanged |
| Scoring.IncorrectAnswerCountsMiss | server.js:185-189 | after `/incorrect`, the word's misses are one more than before; other keys are unchanged and the correct list is untouched |
| Scoring.AnswerKeepsConsistent | server.js:56-79 | an answer event keeps a consistent user consistent |
| Scoring.ReplayStatus | server.js:64-69 | after any sequence of answers, a word's state is its starting state advanced once per correct answer for it; misses do not reset progress |
| Scoring.FreshUserMastery | server.js:45 | for a new user, a word is mastered exactly when it has had at least three correct answers, and otherwise holds its correct-answer count |
| Scoring.ReplayMisses | server.js:64-69 | a word's stored misses are the misses since its last correct answer; the key is present exactly when that is positive |
| Scoring.TwoMissesScenario | server.js:100-103 | two misses on a word from 0 points store 2 misses and leave the score at 0 |
| Scoring.ThreeCorrectScenario | server.js:86-92 | three correct answers on a word leave only the bare word in the correct list and a score of 15 |
| Badges.AssignBadgeAsWritten | server.js:437-447 | a missing user changes nothing; a user without a `badges` field makes the call throw; otherwise it behaves like the corrected award |
| Badges.AssignBadge | server.js:437-447 | the badge is awarded exactly when the user exists and lacks it, and is then appended; otherwise nothing changes |
| Badges.AssignBadgeIdempotent | server.js:440 | a second award of the same badge changes nothing |
| Badges.AwardTwiceLeavesOneCopy | server.js:440-444 | awarding a badge twice to a user who lacked it leaves exactly one copy |
| Badges.AssignBadgeKeepsConsistent | server.js:440-444 | awarding keeps every user's badges free of duplicates |
| Badges.FreshUserBadgeFails | server.js:440 | as written, the first badge for a newly registered user throws |
| Badges.FreshUserBadgeAwarded | server.js:443 | corrected, a newly registered user is awarded the badge and then holds exactly that one |
| UserAnalytics.CountsPartition | server.js:500-501 | the correct and incorrect counts add up to the number of results |
| UserAnalytics.ReportOf | server.js:498-503 | the total is the number of results; the correct count is the number of positions whose `correct` is truthy and the incorrect count the rest; the streak is the stored one, or 0 when absent |
| UserAnalytics.SubmitQuiz | server.js:362-375 | the result is appended to the user's results, an absent field starting empty; no other field or user changes, and an unknown email changes nothing |
| UserAnalytics.SubmitThenAnalytics | server.js:362-375 | after one submission the total rises by one and exactly the count its `correct` value selects rises by one |
| UserAnalytics.AnalyticsAsWritten | server.js:493-511 | a missing user gives not found; a user without `quizResults` makes the route fail; otherwise the corrected report |
| UserAnalytics.Analytics | server.js:497-504 | a missing user gives not found; otherwise a report of the stored results: total, truthy-`correct` count, the rest, and `streak` or 0; never a failure |
| UserAnalytics.FreshUserAnalyticsFails | server.js:499 | as written, analytics for a newly registered user fails |
| UserAnalytics.FreshUserAnalyticsEmpty | server.js:498-503 | corrected, a newly registered user gets all-zero analytics |
| Lifecycle.StepKeepsConsistent | server.js:56-79 | each register, answer, corrected badge award, quiz submission or account deletion keeps every document consistent |
| Lifecycle.ReachableUsersConsistent | server.js:45 | from an empty collection, every stored user has non-negative points, one entry per word with counts 1..2, positive misses and distinct badges |
| Quiz.Unique | server.js:231 | duplicates are removed and the same values remain, no more of them, with the first value still first |
| Quiz.UniqueOfDistinct | server.js:231 | deduplicating a list without duplicates returns it unchanged |
| Quiz.DrawOracle | server.js:234-241 | the assumption on a valid top-up query: its rows are distinct definitions, none the correct answer or already chosen, at most four minus the answers so far |
| Quiz.Fill | server.js:233-244 | the corrected top-up keeps the answers distinct and containing the correct one, never more than four, and only extends the list; it ends full exactly at four answers, otherwise on an empty query |
| Quiz.TopUpLoop | server.js:233-244 | the corrected imperative loop computes the same outcome as the recursive corrected top-up |
| Quiz.Swap | server.js:249 | one exchange keeps the same elements and keeps a duplicate-free list duplicate-free |
| Quiz.Shuffle | server.js:249 | the shuffled list has the same elements as the input and no duplicates if it had none |
| Quiz.ShuffleReachesFrom | server.js:249 | any rearrangement of the positions from k on is produced by some sequence of exchanges |
| Quiz.ShuffleReachesAll | server.js:249 | every permutation of the answers is a possible shuffle |
| Quiz.ServeQuiz | server.js:224-249 | no row gives the thrown error; otherwise the answers are the deduplicated row topped up by the corrected loop: `InsufficientData` exactly when that top-up stops on an empty query, with its answers, and a served quiz shows a rearrangement of the four topped-up answers, which are distinct and include the correct answer and every sampled wrong answer |
| QuestionStore.ExactSample | server.js:203-218 | the assumption on the first query: a row at an offset inside a non-empty table, and distinct definitions other than its own, as many as exist up to three |
| QuestionStore.FirstQuery | server.js:219-222 | no row exactly when the table is empty or no other definition was drawn; otherwise the root and definition at the offset with the drawn definitions |
| QuestionStore.FirstQueryEmptyIff | server.js:219-226 | the first query returns no row exactly when the table holds at most one distinct definition |
| QuestionStore.ManyDefinitionsNeedNoTopUp | server.js:209-233 | with four or more distinct definitions the deduplicated first row already has four answers |
| QuestionStore.FewDefinitionsExhausted | server.js:209-233 | with two or three distinct definitions the first row already holds all of them, fewer than four |
| QuestionStore.QuizAsWritten | server.js:224-254 | no row, or fewer than four answers after deduplication (which runs the refused top-up query), gives a 500; otherwise the question with at least four distinct answers, including the correct one and every drawn one |
| QuestionStore.QuizAsWrittenServesIff | server.js:203-254 | as written the route serves a question exactly when the table holds at least four distinct definitions, and then with exactly four answers |
| QuestionStore.TwoRootsFails | server.js:233-241 | on the table port/carry, scrib/write the first query can return (port, carry, [write]) and the route answers 500 |
| QuestionStore.ExactDraw | server.js:234-241 | the assumption on the repaired top-up query: fresh definitions from the table, as many as remain up to the limit |
| QuestionStore.ExactOracle | server.js:234-241 | every answer of the repaired top-up query is exact in that sense |
| QuestionStore.FillFullIffEnoughDefinitions | server.js:233-244 | the corrected top-up reaches four answers exactly when the table has at least four distinct definitions |
| QuestionStore.SourceLoop | server.js:233-244 | the loop as written, fed by the repaired query, ends only with at least four answers extending the start; otherwise it is still running |
| QuestionStore.ExhaustedLoopNeverExits | server.js:233-244 | with the repaired query, once every definition is chosen and there are fewer than four, the loop never exits |
| QuestionStore.RepairedQuerySpins | server.js:233-244 | with two or three definitions and only the query repaired the loop never exits, while the corrected loop stops with no candidates |
| QuestionStore.TwoRootsRepairedSpin | server.js:233-244 | on the two-root table with only the query repaired, the answers stay at carry, write and the loop never exits |
| QuestionStore.TwoRootsStop | server.js:233-244 | on the same table the corrected loop stops at once with no candidates |

## Left out

- Express routing, request parsing and HTTP status codes. Each route's outcome is a datatype
  constructor instead (`NotAwarded`, `UserNotFound`, `Failed`, `NoQuizQuestion`).
- The database calls themselves. MongoDB `findOne`, `updateOne` and `$push` become operations on
  a map keyed by email. The two PostgreSQL queries of `/quiz` become an input row and a `draw`
  oracle. Random offsets and `ORDER BY random()` become parameters.
- The read-then-write race between `findOne` and `updateOne` in `updateUserPoints`. Each update
  is treated as atomic.
- bcrypt password hashing, `/login`, JWT, `authorizeRole`, `/forgot-password` and Google OAuth.
  These are foreign libraries; `CreateUser` does not store the password.
- nodemailer, the WebSocket server and `notifyLeaderboardUpdate`. These are I/O.
- The leaderboard's sort and limit. MongoDB performs them.
- `/searchQuestions`, and the stray labelled statement `quizResults: [...]` that has no effect.
- `/quizHistory`, which returns the stored `quizResults` unchanged, and the read-only routes
  `/correctWords`, `/wrongWords` and `/points`. They compute nothing.
- `/deleteAccount`'s password check. The modelled deletion is one whose check passed.
- `/banUser`, which sets a `banned` flag that no modelled operation reads. Admin-only routes
  (`/addQuizQuestion`, `/admin-only`) likewise.
- JavaScript number semantics. Points are unbounded integers, because the only deltas are the
  integers 5 and -2.
- Words that are not plain strings, and words such as `constructor` that name a property of
  `Object.prototype`. For those, `wrongList[word] || 0` reads an inherited value.
- Users.Register: a missing `email` or `password` field is modelled as the empty string, which
  JavaScript also treats as false.
- QuestionStore.FirstQuery: SQL `NULL` definitions are not modelled.
- Quiz.Shuffle: the distribution that `sort` with a random comparator produces is not modelled.
  The contract states only that the result is a permutation, and every permutation is reachable.
- Quiz.ServeQuiz: its `requires` that at most three wrong answers arrive comes from the first
  query's `LIMIT 3`.
- Quiz.ServeQuiz: with two or three distinct definitions it returns `InsufficientData`, which is
  the corrected loop's exit. As written the top-up query is refused and the route answers 500;
  `QuestionStore.QuizAsWritten` models that.

## Findings

| source | as written | input that shows it | evidently intended | confidence | as-written member | corrected member |
|---|---|---|---|---|---|---|
| server.js:440 | `user.badges.includes(badge)` reads a field that `createUser` (server.js:45) never sets | register a user, then award them any badge: `badges` is undefined and the call throws | an absent `badges` field reads as no badges, which is also what `$push` assumes | high, not executed | Badges.FreshUserBadgeFails | Badges.FreshUserBadgeAwarded |
| server.js:499-501 | `user.quizResults.length` reads a field that `createUser` (server.js:45) never sets | register a user, then request `/analytics` before any quiz is submitted | absent results read as none, giving all-zero analytics | high, not executed | UserAnalytics.FreshUserAnalyticsFails | UserAnalytics.FreshUserAnalyticsEmpty |
| server.js:234-241 | the top-up query is `SELECT DISTINCT definition … ORDER BY random()`; PostgreSQL refuses a `DISTINCT` query ordered by an expression outside its select list, so every top-up round throws and `/quiz` answers 500 | a `latin_roots` table with rows (port, carry) and (scrib, write) | a valid query, with the random order applied outside the `DISTINCT` as the first query does | high, not executed | QuestionStore.TwoRootsFails | QuestionStore.TwoRootsStop |
| server.js:233-244 | the loop runs until four answers exist, and a round that adds nothing does not end it; with the query repaired it would spin | the same two-root table, with the top-up query repaired | stop when a top-up query returns no rows | medium, not executed (depends on the query being repaired first) | QuestionStore.TwoRootsRepairedSpin | QuestionStore.TwoRootsStop |
