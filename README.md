# LovingTree Lingo — a verified model of the quiz engine and its pages

LovingTree Lingo is a small web app for learning Chinese characters. This Dafny
project models the parts of it that compute something:

- the quiz engine in `lib/quiz.ts`:
  - the Fisher–Yates shuffle;
  - wrong-answer sampling with its generic padding;
  - question and quiz generation;
  - scoring and the performance message;
- the data layer in `lib/database.ts`:
  - how `saveQuizResult` maps answers to rows and reports its outcome;
  - how `getUserStats` computes the average, best score, distinct characters, streak and recent quizzes;
- the practice page (`app/practice/page.tsx`): a class with the page's ten state fields and its event handlers;
- the login and signup pages: their validation chains, and `handleSubmit` modelled as a class method;
- the dashboard (`app/dashboard/page.tsx`):
  - the streak banner, badge colour and quiz-number labels;
  - when the statistics panel is shown;
  - how a statistics fetch updates the page.

Modules and files:

| file | module | models |
|---|---|---|
| `common.dfy` | `Common` | `Option`, JavaScript truthiness of strings (`x \|\| fallback`), decimal rendering of numbers |
| `backend.dfy` | `Backend` | The outcome of a call to the hosted backend: it returned data, it reported an error, or it threw. |
| `shuffle.dfy` | `Shuffle` | The `Math.random` stream and `shuffleArray` |
| `quiz.dfy` | `Quiz` | `lib/quiz.ts` |
| `database.dfy` | `Database` | `saveQuizResult` and `getUserStats` |
| `practice.dfy` | `Practice` | The practice page |
| `forms.dfy`, `login.dfy`, `signup.dfy` | `Forms`, `Login`, `Signup` | The login and signup pages |
| `dashboard.dfy` | `Dashboard` | The dashboard page |

How the model stands in for things it cannot run:

- **Randomness.** Randomness is a stream of naturals (`rng: seq<nat>`). `Math.floor(Math.random() * b)` is the next draw modulo `b`, or 0 once the stream is exhausted. Every random operation returns the rest of the stream.
- **Clock and backend.** The clock (`Date.now()`) and every backend outcome are parameters.
- **Rounding.** `Math.round(x / y * 100)` is the integer round-half-up `(200x + y) / (2y)`. `Math.round(sum / n)` is `(2sum + n) / (2n)`.
- **Timestamps.** Timestamps are integer milliseconds, and "one day back" subtracts 86 400 000.

Distinct options:

- The code does not guarantee distinct options in general. Two catalog entries can share a field value, and with fewer than three alternatives the padding words fill the list. The model proves what the code gives. With three or more alternatives the correct answer occurs exactly once, and every distractor is some other catalog entry's field. When the catalog's values for the question's field are also distinct, the four options are pairwise different. The built-in sample catalog meets both conditions, so every question drawn from it has four different options.

## Model

| member | source | states |
|---|---|---|
| Common.NatToString | apps/lovingtree-lingo/lib/quiz.ts:126 | A number as a template literal renders it: at least one character, decimal digits only, and no leading zero except for 0 itself. |
| Common.NatToStringInjective | apps/lovingtree-lingo/app/dashboard/page.tsx:62-64 | Different numbers render as different strings, so the rendered streak and the question-id timestamp identify their number. |
| Shuffle.ShuffleArray | apps/lovingtree-lingo/lib/quiz.ts:53-60 | Returns a permutation of its input: same length and same multiset. Inputs of length 0 or 1 come back unchanged. It uses exactly `length - 1` random draws. It works on a copy, so the caller's sequence is untouched. |
| Shuffle.ShuffleInPlace | apps/lovingtree-lingo/lib/quiz.ts:55-58 | The swap loop keeps the multiset of the array. It leaves arrays of length 0 or 1 as they were, and consumes one draw per swap. |
| Shuffle.Swap | apps/lovingtree-lingo/lib/quiz.ts:57 | The destructuring swap exchanges two cells and keeps the multiset of the array. |
| Shuffle.Draw | apps/lovingtree-lingo/lib/quiz.ts:56 | `Math.floor(Math.random() * (i + 1))` is an index below the bound. |
| Quiz.SampleCharacters | apps/lovingtree-lingo/lib/quiz.ts:35-48 | The sample catalog has 12 entries. |
| Quiz.Alternatives | apps/lovingtree-lingo/lib/quiz.ts:71-78 | The filter keeps exactly the catalog entries whose field differs from the correct answer (both directions), and draws from the catalog's multiset. |
| Quiz.FieldValuesPermutation | apps/lovingtree-lingo/lib/quiz.ts:80-92 | Permuting characters permutes their field values, so the picks taken from a shuffle come from the unshuffled alternatives. |
| Quiz.GenerateWrongAnswers | apps/lovingtree-lingo/lib/quiz.ts:65-113 | Always exactly 3 strings. The first `min(3, alternatives)` are field values of distinct alternatives. The rest are the generic words `generic[k % 7]` for that field. |
| Quiz.PickFieldValues | apps/lovingtree-lingo/lib/quiz.ts:80-92 | The push loop yields the field values of the first `m` shuffled characters, in order. |
| Quiz.PadWithGeneric | apps/lovingtree-lingo/lib/quiz.ts:95-110 | The padding loop brings the list to exactly 3, keeps what was picked, and adds `generic[k % 7]` at each position `k`. |
| Quiz.DistractorsAvoidCorrect | apps/lovingtree-lingo/lib/quiz.ts:71-92 | With at least 3 alternatives, no wrong answer equals the correct answer, and each is the field of some catalog entry. |
| Quiz.CorrectOccursOnce | apps/lovingtree-lingo/lib/quiz.ts:130-133 | With at least 3 alternatives, the correct answer occurs exactly once among `[correct] + wrong`. |
| Quiz.DistractorBag | apps/lovingtree-lingo/lib/quiz.ts:95-110 | The distractors split into sampled field values plus the padding words for the number sampled. |
| Quiz.GenerateQuestion | apps/lovingtree-lingo/lib/quiz.ts:118-174 | The type is the random draw over the three types. The id is `charId-type-now`. The correct answer is the meaning, pinyin or glyph as the type says, and the prompt matches the type. There are four options, a permutation of the correct answer plus three distractors. With at least 3 alternatives the correct answer occurs once. |
| Quiz.AlternativeValuesOnce | apps/lovingtree-lingo/lib/quiz.ts:71-78 | When no two catalog entries share the field, no value occurs twice among the alternatives' fields. |
| Quiz.OptionsDistinct | apps/lovingtree-lingo/lib/quiz.ts:130-133 | With distinct catalog values for the field and at least 3 alternatives, the four options of a question are pairwise different. |
| Quiz.SampleFieldsDistinct | apps/lovingtree-lingo/lib/quiz.ts:35-48 | The sample catalog's twelve meanings, pinyin spellings and glyphs are each pairwise different. |
| Quiz.AlternativesDropAtMostOne | apps/lovingtree-lingo/lib/quiz.ts:71-78 | Over distinct field values the filter removes at most one entry, so the sample catalog always leaves at least 11 alternatives. |
| Quiz.SampleQuestionOptionsDistinct | apps/lovingtree-lingo/lib/quiz.ts:118-174 | Every question well formed against the sample catalog, as the practice page generates them, has four different options. |
| Quiz.Available | apps/lovingtree-lingo/lib/quiz.ts:183 | An empty catalog falls back to the sample catalog, so the catalog in use is never empty. |
| Quiz.SliceEnd | apps/lovingtree-lingo/lib/quiz.ts:185 | The end of `slice(0, min(count, len))`: never past the end, and `min(count, len)` for a count that is not negative. |
| Quiz.SelectCharacters | apps/lovingtree-lingo/lib/quiz.ts:184-191 | The selection has `QuizLength(count, len)` characters, all drawn from the catalog in use. The first slice is a sub-multiset of that catalog. When count ≥ len, the first slice is the whole catalog. |
| Quiz.TopUp | apps/lovingtree-lingo/lib/quiz.ts:188-191 | The refill loop reaches exactly `count` characters when it has to add any. It never changes the prefix and only adds catalog characters. |
| Quiz.GenerateQuestions | apps/lovingtree-lingo/lib/quiz.ts:193 | One well-formed question per selected character, in order. |
| Quiz.GenerateQuiz | apps/lovingtree-lingo/lib/quiz.ts:179-194 | For `questionCount ≥ 0`, exactly `questionCount` questions; negative counts follow JavaScript's `slice`. Every question is about a character of the catalog in use and is well formed. The first `min(count, len)` characters come from the catalog without repetition beyond its own multiset. |
| Quiz.CalculateQuizResult | apps/lovingtree-lingo/lib/quiz.ts:199-215 | `totalQuestions` is the number of questions and the answers are kept. `correctAnswers` is at most the number of answers. The percentage is 0 with no correct answers, 100 with all correct, and within 0..100 whenever correct ≤ total. |
| Quiz.CountCorrect | apps/lovingtree-lingo/lib/quiz.ts:203 | The number of correct answers never exceeds the number of answers. |
| Quiz.TotalTime | apps/lovingtree-lingo/lib/quiz.ts:206 | The summed duration is never negative when no answer's time is. |
| Quiz.RoundedPercent | apps/lovingtree-lingo/lib/quiz.ts:205 | The result `p` is the rounded percentage: `p - 1/2 <= 100·correct/total < p + 1/2`, so halves round up as `Math.round` does. |
| Quiz.CountCorrectIsCorrectPositions | apps/lovingtree-lingo/lib/quiz.ts:203 | `filter(isCorrect).length` is the number of positions holding a correct answer. |
| Quiz.ScoreAppend | apps/lovingtree-lingo/lib/quiz.ts:203-206 | Appending an answer raises the correct count by its `isCorrect` and the duration by its `timeSpent`. |
| Quiz.PercentBounds | apps/lovingtree-lingo/lib/quiz.ts:205 | The rounded percentage lies in 0..100 for correct ≤ total. It is 0 for none correct and 100 for all correct. |
| Quiz.EightOfTenIsEighty | apps/lovingtree-lingo/lib/quiz.ts:205 | 8 correct of 10 rounds to 80. |
| Quiz.PerformanceBand | apps/lovingtree-lingo/lib/quiz.ts:220-227 | Six bands: band 0 exactly at ≥ 90 and band 5 exactly below 50. |
| Quiz.GetPerformanceMessage | apps/lovingtree-lingo/lib/quiz.ts:220-227 | The message is the one listed for the score's band. |
| Quiz.PerformanceBandMonotone | apps/lovingtree-lingo/lib/quiz.ts:220-227 | A higher score never gets a lower band. Between 50 and 99 the band is `9 - p / 10`. |
| Database.FindQuestion | apps/lovingtree-lingo/lib/database.ts:66 | `find` gives nothing exactly when no question has the id, and otherwise the first question with it. |
| Database.AnswerRowFor | apps/lovingtree-lingo/lib/database.ts:67-76 | A row copies the result id, question id, selection, correctness and time from the answer. |
| Database.AnswerRows | apps/lovingtree-lingo/lib/database.ts:65-77 | One row per answer, in order. |
| Database.AnswerRowPlaceholders | apps/lovingtree-lingo/lib/database.ts:70-73 | With no matching question, the row holds `'unknown'`, `'unknown'` and `''`. With a match, it takes the first matching question's type, character id and correct answer, each falling back when empty. |
| Database.SaveQuizResult | apps/lovingtree-lingo/lib/database.ts:40-94 | The result row copies the quiz result. The save succeeds exactly when the result insert returned and the answers insert did not throw. Answer rows are written only after the result insert returned. A failed result insert passes on its message. A failed answers insert gives `success` with "Result saved but answers failed: …". Both inserts returning gives success with no error. A throw gives the generic unexpected-error message. |
| Database.MaxPercentage | apps/lovingtree-lingo/lib/database.ts:159 | `Math.max(...)` is at least every percentage and is one of them. |
| Database.MinPercentage | apps/lovingtree-lingo/lib/database.ts:156-159 | A lower bound for the average that is one of the percentages; it serves as the average's partner. |
| Database.SumPercentages | apps/lovingtree-lingo/lib/database.ts:157 | The `reduce` sum of the percentages; never negative when no percentage is (`SumBetween` bounds it on both sides). |
| Database.AverageScore | apps/lovingtree-lingo/lib/database.ts:156-158 | The average `a` is the mean rounded to the nearest integer, halves up: `a - 1/2 <= sum/n < a + 1/2`. |
| Database.SumBetween | apps/lovingtree-lingo/lib/database.ts:157 | If every percentage is within lo..hi, the sum is within n·lo..n·hi. |
| Database.RoundedMeanBetween | apps/lovingtree-lingo/lib/database.ts:156-158 | The integer nearest to `sum / n`, for a sum within n·lo..n·hi, lies within lo..hi. |
| Database.AverageBetweenMinAndBest | apps/lovingtree-lingo/lib/database.ts:155-159 | The rounded average lies between the lowest percentage and `bestScore`. |
| Database.IdSet | apps/lovingtree-lingo/lib/database.ts:169 | The set holds exactly the character ids of the answer rows. |
| Database.DistinctIdsBounds | apps/lovingtree-lingo/lib/database.ts:167-169 | There are at most as many distinct ids as rows, and at least one when there are rows. |
| Database.RecentQuizzes | apps/lovingtree-lingo/lib/database.ts:195 | `slice(0, 5)` is the first `min(5, n)` results in the order given. |
| Database.DaysDiff | apps/lovingtree-lingo/lib/database.ts:178 | The floored number of whole days `d` between the two times: `d` days fit, `d + 1` do not. |
| Database.DaysDiffAntitone | apps/lovingtree-lingo/lib/database.ts:178 | An older timestamp is never fewer whole days back. |
| Database.StreakAsWritten | apps/lovingtree-lingo/lib/database.ts:172-186 | The loop as written, with both the check date and the compared count moving: the count starts at its initial value and rises by at most one per result. |
| Database.CurrentStreakAsWritten | apps/lovingtree-lingo/lib/database.ts:172-186 | The imperative loop as written, with the early `break`, computes `StreakAsWritten` and never exceeds the number of results. |
| Database.StreakAsWrittenUndercounts | apps/lovingtree-lingo/lib/database.ts:176-183 | Quizzes today, yesterday and the day before give a streak of 2, not 3. |
| Database.DaysBack | apps/lovingtree-lingo/lib/database.ts:178 | The whole days from now back to each quiz, one per quiz, in order. |
| Database.DayStreak | apps/lovingtree-lingo/lib/database.ts:176-186 | Compares each result's days-back with the running count, stopping at a gap. The count rises by at most one per result. |
| Database.ConsecutiveDayStreak | apps/lovingtree-lingo/lib/database.ts:172-186 | The loop with a fixed reference date computes `DayStreak` and never exceeds the number of results. |
| Database.DayStreakDaysPresent | apps/lovingtree-lingo/lib/database.ts:180-181 | Every day counted in the streak has a quiz on it. |
| Database.DayStreakStopsAtGap | apps/lovingtree-lingo/lib/database.ts:183-184 | For results ordered newest first, the day at which the streak stops has no quiz. |
| Database.DaysBackOrdered | apps/lovingtree-lingo/lib/database.ts:134 | Results ordered newest first give days-back values in non-decreasing order. |
| Database.ConsecutiveDayStreakCountsThree | apps/lovingtree-lingo/lib/database.ts:172-186 | Quizzes today, yesterday and the day before give a streak of 3. |
| Database.CreatedTimes | apps/lovingtree-lingo/lib/database.ts:177 | The creation times of the results, in order. |
| Database.GetUserStats | apps/lovingtree-lingo/lib/database.ts:127-202 | A query error passes on its message with no stats. A throw gives the generic statistics error with no stats. No results give all-zero stats and an empty recent list. Stats are present exactly when the query returned and the answers query did not throw, and never come with an error. The stats hold the count, the rounded average, the best score, the number of distinct characters (0 when the answers query errored), the corrected day streak `DayStreak` (at most the count; the source's own loop gives `StreakAsWritten`, see Findings) and the recent slice. |

| Practice.FreshAnswer | apps/lovingtree-lingo/app/practice/page.tsx:79-84 | The answer built at the end is for the current question. It is correct exactly when the selection is the correct answer, and an empty selection counts as `''`. |
| Practice.FinalAnswersAsWritten | apps/lovingtree-lingo/app/practice/page.tsx:79-84 | The code as written always appends one more answer. |
| Practice.FinalAnswersAsWrittenOvercounts | apps/lovingtree-lingo/app/practice/page.tsx:72 | After submitting every question correctly, the result counts one more correct answer than there are questions: 110% for a 10-question quiz. |
| Practice.FinalAnswers | apps/lovingtree-lingo/app/practice/page.tsx:79-85 | The intended final answers: the last answer is appended only when it is missing, so there are never more answers than questions. |
| Practice.AllCorrectCount | apps/lovingtree-lingo/lib/quiz.ts:203 | With every answer correct, the correct count is the number of answers. |
| Practice.FinalAnswersScoreInRange | apps/lovingtree-lingo/app/practice/page.tsx:85 | The result over the intended final answers has a percentage within 0..100. |
| Practice.SaveStatusFor | apps/lovingtree-lingo/app/practice/page.tsx:95-103 | The banner's success flag is the save's success, and its message is never empty. |
| Practice.SaveStatusOutcomes | apps/lovingtree-lingo/app/practice/page.tsx:94-103 | "Quiz result saved successfully!" appears exactly when both inserts returned. "Saved with warning: Result saved but answers failed: …" appears when only the answers insert failed. A failed result insert shows its message, or "Failed to save quiz result" when the message is empty. |
| Practice.PracticeSession.constructor | apps/lovingtree-lingo/app/practice/page.tsx:29-38 | The initial values of the ten state fields. |
| Practice.PracticeSession.IsLastQuestion | apps/lovingtree-lingo/app/practice/page.tsx:51 | True exactly when there is a current question and no question after it. |
| Practice.PracticeSession.ViewResultsAsWrittenOvercounts | apps/lovingtree-lingo/app/practice/page.tsx:76-85 | While "View Results" is shown, the current answer is already recorded. The page's own final list then holds one answer more than there are questions, and the intended list adds nothing. |
| Practice.PracticeSession.CurrentQuestion | apps/lovingtree-lingo/app/practice/page.tsx:50 | There is a current question exactly when the index is in range, and it is one of the questions. |
| Practice.PracticeSession.Start | apps/lovingtree-lingo/app/practice/page.tsx:43-48 | Loads ten well-formed questions over the sample catalog and starts both clocks. From the initial state the session is then in progress. |
| Practice.PracticeSession.HandleAnswerSelect | apps/lovingtree-lingo/app/practice/page.tsx:54-57 | While feedback is showing nothing changes. Otherwise only the selection changes. |
| Practice.PracticeSession.HandleSubmitAnswer | apps/lovingtree-lingo/app/practice/page.tsx:59-74 | With no (or an empty) selection, or no current question, nothing changes. Otherwise it appends exactly one answer, with `isCorrect` meaning selection = correct answer and the time since the question started, and shows feedback. The answers keep covering the questions up to the current one. |
| Practice.PracticeSession.HandleNextQuestion | apps/lovingtree-lingo/app/practice/page.tsx:76-117 | On a question that is not the last, it moves to the next question, clears the selection and feedback, and restarts the question clock. On the last question it computes the result over the corrected final answers `FinalAnswers`, not the page's own list, which repeats the last answer (see Findings). A signed-in user's result is saved, the save status records the outcome, and saving is no longer in progress afterwards. Driven through the buttons, the session stays in progress. The corrected result has one answer per question and a percentage within 0..100; the page as written gives one answer more and can reach 110%. |
| Practice.PracticeSession.Finish | apps/lovingtree-lingo/app/practice/page.tsx:86-109 | Records the result. Without a user nothing else changes. With one, the save runs, its outcome becomes the save status, and saving ends false. |
| Practice.PracticeSession.Advance | apps/lovingtree-lingo/app/practice/page.tsx:110-116 | Moves to the next index, clears the selection and feedback, and restarts the question clock. |
| Practice.PracticeSession.HandleTryAgain | apps/lovingtree-lingo/app/practice/page.tsx:119-132 | A fresh quiz of ten questions. Index 0, no answers, selection, feedback, result or save status. Both clocks restart. |

| Login.ValidateLogin | apps/lovingtree-lingo/app/login/page.tsx:31-47 | The checks run in order: missing fields, then no '@', then a password shorter than 6. Each error occurs exactly when the earlier checks pass and its own fails. No error means all pass. |
| Login.LoginForm.constructor | apps/lovingtree-lingo/app/login/page.tsx:19-22 | The form state when submit is pressed: the typed email and password, not loading, no error, and no navigation yet. The fields start as `''` in the page; the model takes the typed values as arguments. |
| Login.LoginForm.HandleSubmit | apps/lovingtree-lingo/app/login/page.tsx:26-62 | `signIn` is called exactly when validation passes. A validation failure shows its message. A backend error shows its message, or "An error occurred during login" when that is empty. A throw shows "An unexpected error occurred". Navigation to `/dashboard` happens only with no error and a user. `loading` is false on every exit. |
| Signup.ValidateSignup | apps/lovingtree-lingo/app/signup/page.tsx:34-56 | The same ordered chain over three fields, ending with the password-mismatch check. Each error is stated as an if-and-only-if. |
| Signup.SignupRefinesLogin | apps/lovingtree-lingo/app/signup/page.tsx:34-50 | With confirm = password, signup validation is login validation. A form valid for signup is valid for login. |
| Signup.SignupForm.constructor | apps/lovingtree-lingo/app/signup/page.tsx:19-24 | The typed email, password and confirmation, not loading, no error, no success and no redirect scheduled. The fields start as `''` in the page; the model takes the typed values as arguments. |
| Signup.SignupForm.HandleSubmit | apps/lovingtree-lingo/app/signup/page.tsx:28-76 | `signUp` is called exactly when validation passes. Error messages and fallbacks are as for login, with "An error occurred during signup". `success`, and the redirect to `/dashboard` scheduled with it, are set exactly when there is no error. `loading` is false on every exit. |
| Dashboard.StreakMessage | apps/lovingtree-lingo/app/dashboard/page.tsx:59-65 | The banners for streaks of 2 and more contain the streak's decimal number, at the place its range puts it. |
| Dashboard.StreakMessageRange | apps/lovingtree-lingo/app/dashboard/page.tsx:60-64 | The banner's first character tells exactly which of the five ranges (0, 1, 2–6, 7–29, 30 and up) the streak is in. |
| Dashboard.StreakMessageInjective | apps/lovingtree-lingo/app/dashboard/page.tsx:59-65 | Different streaks get different banners. |
| Dashboard.Badge | apps/lovingtree-lingo/app/dashboard/page.tsx:186 | Green exactly at ≥ 80 and red exactly below 60, so yellow covers 60–79. |
| Dashboard.BadgeAgreesWithPerformanceBands | apps/lovingtree-lingo/app/dashboard/page.tsx:186 | A higher percentage never gets a worse badge. Green, yellow and red match the top two, middle two and bottom two performance-message bands. |
| Dashboard.QuizNumbers | apps/lovingtree-lingo/app/dashboard/page.tsx:178 | The recent quiz at position `index` is labelled `totalQuizzes - index`. |
| Dashboard.QuizNumbersCountDown | apps/lovingtree-lingo/app/dashboard/page.tsx:178 | For statistics built by `getUserStats`, the labels start at the number of quizzes, strictly decrease, and stay between 1 and that number. |
| Dashboard.ShowStatsPanel | apps/lovingtree-lingo/app/dashboard/page.tsx:119 | The panel shows exactly when there are statistics counting at least one quiz. After a fetch that returned, that means the user has a stored result (see `FetchUserStats`). |
| Dashboard.DashboardPage.constructor | apps/lovingtree-lingo/app/dashboard/page.tsx:23-25 | No stats, loading, no error. |
| Dashboard.DashboardPage.FetchUserStats | apps/lovingtree-lingo/app/dashboard/page.tsx:35-53 | Without a user, nothing changes. A truthy error is recorded and the stats are kept. Otherwise the stats are replaced and the error cleared. When the query returned and the answers query did not throw, the panel shows exactly when the stored results are not empty. Loading ends on every path. |
| Dashboard.DashboardPage.UserChanged | apps/lovingtree-lingo/app/dashboard/page.tsx:27-33 | With a user, the statistics are fetched. Without one, loading just stops. |

## Left out

- Randomness is an injected stream; nothing is said about the distribution of the shuffle or of the question types.
- Quiz.CalculateQuizResult: requires at least one question. With zero questions the source divides by zero and gets `NaN`. Its only caller always passes ten questions.
- Floating-point arithmetic in general, and the progress-bar percentage (`app/practice/page.tsx:52`), are not modelled.
- The `default: throw` branch of `generateQuestion` cannot be reached with three fixed types and has no counterpart.
- Dates: `new Date(...)`, time zones, daylight saving and `setDate` are replaced by integer milliseconds and 86 400 000 ms per day. Question ids render `Date.now()` as a decimal number.
- `password.length` counts UTF-16 code units; strings here are sequences of characters.
- The hosted backend and authentication (`lib/auth.ts`, `lib/supabase`) are abstract outcomes.
- React rendering, hooks, routing (a recorded target instead of `router.push`), `setTimeout` (a recorded scheduled redirect) and console logging are not modelled.
- The practice page's own `catch` branch ("An unexpected error occurred while saving") is not modelled. `saveQuizResult` catches every exception itself and cannot make it run.
- The dashboard's `catch` branch ("Failed to load progress data") is not modelled. `getUserStats` catches every exception itself.
- A `null` data array from the backend is modelled as the empty sequence.
- `getUserQuizHistory`, `initializeQuizTables` and `checkDatabaseSetup` are pass-throughs to the backend and are not modelled.
- `middleware.ts`, `app/admin/page.tsx`, `app/library/page.tsx`, `app/page.tsx`, `app/character/[id]/page.tsx`, `contexts/AuthContext.tsx` and `components/SupabaseTest.tsx` are UI or plumbing and are not part of this model.
- Database.GetUserStats: `currentStreak` is the corrected `DayStreak`, not the value of the source's loop. The source's loop is `StreakAsWritten` (computed by `CurrentStreakAsWritten`). The two differ, for example 3 against 2 for quizzes on three consecutive days (see Findings).
- Dashboard.DashboardPage.FetchUserStats: the statistics it stores carry that corrected streak, so the banner it feeds can show a different number from the deployed page.
- Practice.PracticeSession.HandleNextQuestion: on the last question it scores the corrected `FinalAnswers`, not the page's own list. The page's list repeats the last answer (`FinalAnswersAsWritten`, see Findings), so the deployed page records `|questions| + 1` answers and can score 110%. The handler's 0..100 bound holds for the corrected model only.
- Quiz.GenerateQuestions: every question of one quiz gets the same `now` in its id. The source reads `Date.now()` once per question, so its ids can differ in the time part.
- Practice.PracticeSession.HandleNextQuestion, Practice.PracticeSession.Finish, Dashboard.DashboardPage.FetchUserStats, Login.LoginForm.HandleSubmit and Signup.SignupForm.HandleSubmit: each runs to completion as one step. The page stays interactive at its `await`, and the model has no interleaving there. For example, "Try Again" pressed while a result is being saved would, in the page, have the save's outcome written into the fresh quiz's `saveStatus` and `savingResult`. The model cannot reach that state.
- Login.LoginForm.HandleSubmit and Signup.SignupForm.HandleSubmit: the `AuthThrew` reply and its "An unexpected error occurred" branch are kept for completeness. `signIn` and `signUp` in `lib/auth.ts` catch every exception and return it as an error reply, so that branch cannot run in the app.
- Dashboard.StreakMessage: the emoji at the end of each banner are stored double-encoded in the page source. The model uses the intended characters (🎯 🌟 🔥 🏆 🎉).

## Findings

| source | as written | input that shows it | evidently intended | confidence | as-written member | corrected member |
|---|---|---|---|---|---|---|
| apps/lovingtree-lingo/lib/database.ts:176-183 | Each hit both moves `checkDate` back a day and raises `currentStreak`. Days-back are measured from the moved date but compared with the raised count, so each counted day shifts the target by two. | Quizzes at now, now − 1 day and now − 2 days. Measured from the moving date the day differences are 0, 0 and 1 against counts 0, 1 and 1: yesterday's quiz is skipped and the streak ends at 2. | Count consecutive days back from today: a streak of 3. | not executed | Database.StreakAsWrittenUndercounts | Database.ConsecutiveDayStreakCountsThree |
| apps/lovingtree-lingo/app/practice/page.tsx:72, 79-85 | Submitting the last question already appended its answer, and `handleNextQuestion` appends it again. | A 10-question quiz with every answer correct scores 11 correct and 110%. | Score each question once: 10 correct and 100%. | not executed | Practice.FinalAnswersAsWrittenOvercounts | Practice.FinalAnswersScoreInRange |
