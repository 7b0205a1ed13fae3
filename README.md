# Geography Trivia Game: the game logic in Dafny

This project models the logic of three React pages of the Geography
Trivia Game and proves properties of that model.

- **Superlatives** (`src/components/Superlatives.jsx`) is a country
  quiz. The page shows a pool of country buttons and asks a superlative
  question, such as "which country's capital is farthest west?". There
  are eighteen such questions (`allQuestions`). Each one has a reducer
  that folds an accumulator `{top, invalid, tie}` over the pool.
  - `generateRandomQuestion` tries the questions in shuffled order. It
    keeps the first one whose fold ends neither invalid nor tied.
  - `resetGame` draws new pools until one yields a question.
  - The guess effect works as follows:
    - a correct guess scores a point, crosses the country off and asks a
      new question about the rest, or goes up a level;
    - a wrong guess loses a point and an attempt;
    - losing the last attempt reveals the answer, appends the score to
      the leaderboard, and restarts the game five seconds later.
- **Home** (`src/components/Home.jsx`) shows the leaderboards:
  - the trivia scores, split by difficulty and ranked by score per
    question;
  - the Superlatives scores, ranked by score and then by level;
  - buttons that clear a leaderboard;
  - `beautifyCategories`, which prettifies the category names.
- **Trivia** (`src/components/TriviaSearch.jsx`) is a quiz page:
  - category checkboxes;
  - a query URL built from the choices;
  - questions answered one at a time, with a score, a point total and
    an answer history;
  - a result recorded on a leaderboard cookie;
  - a reset.

The modules are these:

| file | module | what it holds |
|---|---|---|
| `countries.dfy` | `Wrappers`, `Countries` | `Option`; the country record, the attribute each metric reads (`Key`), and the catalogue of 18 metrics |
| `reducers.dfy` | `Reducers` | the reducer step shared by all 18 questions, the left fold, and theorems about what an accepted fold names |
| `resolver.dfy` | `Resolver` | `generateRandomQuestion`, as a specification function and as the source's loop |
| `superlatives.dfy` | `Superlatives` | the Superlatives page: a class whose answer buttons are an array updated in place |
| `text.dfy` | `Text` | `split`, `join`, `beautifyCategories` and number rendering |
| `trivia.dfy` | `Trivia` | the trivia page, a class |
| `home.dfy` | `Leaderboard` | in-place sorts by comparator, difficulty buckets, and the clear buttons |

Two consequences of the code are worth knowing, and the model keeps
both:

- **The level is never capped.** The help text
  (src/components/Superlatives.jsx:25-28) says the game goes up a level
  "up to a maximum of 12 options". Only the pool size stops at 12; the
  level recorded in `currentScore` keeps rising.
- **The first candidate can never be the answer of a question.** The
  fold starts from `answers[0]` and compares it with itself first, which
  always sets `tie` (src/components/Superlatives.jsx:676-680). So a pool
  whose largest area belongs to its first country does not get the
  "largest area" question, although the comment describing the reducers
  (src/components/Superlatives.jsx:190-197) speaks of the top country
  among all candidates seen.

## Model

| member | source | states |
|---|---|---|
| Countries.Key | src/components/Superlatives.jsx:212-662 | the value each reducer compares; it is absent exactly for a latitude or longitude metric on a country without capital coordinates, and missing borders count as zero |
| Countries.CatalogueDistinct | src/components/Superlatives.jsx:199-664 | the catalogue has 18 distinct questions |
| Countries.CatalogueComplete | src/components/Superlatives.jsx:199-664 | every attribute, with both directions, is in the catalogue |
| Reducers.Step | src/components/Superlatives.jsx:212-220 | missing data on either side sets `invalid` and changes nothing else; a strictly better candidate becomes `top`, clears `tie` and keeps `invalid` (the west reducer clears `invalid` too); an equal one sets `tie`; a worse one changes nothing |
| Reducers.Reduce | src/components/Superlatives.jsx:676-680 | the fold's `top` is the seed or one of the folded countries |
| Reducers.Resolve | src/components/Superlatives.jsx:676-680 | the fold seeded with `answers[0]` names a member of the pool |
| Reducers.FoldInvHolds | src/components/Superlatives.jsx:676-691 | after each prefix, the fold keeps its invariant: `top` was seen; no seen country with data beats it; without a pending tie it is the unique strict best at an index other than 0 |
| Reducers.AcceptedIsUniqueExtremum | src/components/Superlatives.jsx:676-709 | an accepted fold names the unique strict maximum or minimum of the pool, at an index other than 0; except for "farthest west", every candidate has data |
| Reducers.FirstCandidateNeverWins | src/components/Superlatives.jsx:676-680 | an accepted answer is never `answers[0]`: the pool has at least two countries and a later one strictly beats the first |
| Reducers.ExtremumAtFirstRejected | src/components/Superlatives.jsx:215-218 | a metric whose extremum is at index 0, with nobody strictly better, is never accepted |
| Reducers.AcceptedNeedsCoordinates | src/components/Superlatives.jsx:263-265 | north, south and east accept a pool only when every capital has coordinates |
| Reducers.NonCoordinateNeverInvalid | src/components/Superlatives.jsx:591-593 | metrics that do not read coordinates (borders counting a missing list as 0) never set `invalid` |
| Reducers.WestForgivesMissingCoordinates | src/components/Superlatives.jsx:368-375 | a pool with a capital lacking coordinates, followed by a capital farther west, is accepted by "farthest west" but rejected by "farthest east" |
| Reducers.UniformPoolRejected | src/components/Superlatives.jsx:676-699 | a pool whose countries agree on every attribute gets no question |
| Resolver.FirstAcceptable | src/components/Superlatives.jsx:681-709 | it returns none exactly when no metric of the order is accepted; otherwise the question's answer is that metric's fold top |
| Resolver.FirstAcceptableIsFirst | src/components/Superlatives.jsx:681-691 | the chosen metric comes after only rejected ones |
| Resolver.SelectQuestion | src/components/Superlatives.jsx:667 | fewer than two candidates give no question |
| Resolver.NoQuestionIffNoAcceptableMetric | src/components/Superlatives.jsx:681-699 | for any shuffle, there is no question exactly when the pool has fewer than two countries or all 18 metrics are invalid or tied |
| Resolver.PermutationIsShuffle | src/components/Superlatives.jsx:669-672 | a permutation of the catalogue is a valid shuffle |
| Resolver.QuestionIsUniqueExtremum | src/components/Superlatives.jsx:666-710 | a generated question's answer is the pool's unique strict extremum for its metric, and never `answers[0]` |
| Resolver.GenerateRandomQuestion | src/components/Superlatives.jsx:666-710 | the source's `while` loop returns exactly `SelectQuestion` |
| Superlatives.Take | src/components/Superlatives.jsx:751 | `slice(0, n)`: the first `n` entries, or all of them when there are fewer |
| Superlatives.FirstGoodDraw | src/components/Superlatives.jsx:745-758 | a pool of at most `n` countries; none only when no draw yields a question |
| Superlatives.FirstGoodDrawFromSomeDraw | src/components/Superlatives.jsx:745-758 | the round comes from one of the draws: its first `n` countries and the question they yield |
| Superlatives.FirstGoodDrawFits | src/components/Superlatives.jsx:745-761 | a started round has between 2 and `n` candidates, and its question fits the fresh buttons |
| Superlatives.DrawUntilQuestion | src/components/Superlatives.jsx:745-758 | the retry loop returns `FirstGoodDraw` |
| Superlatives.NewRound | src/components/Superlatives.jsx:751-755 | fresh buttons for the pool, with every flag clear |
| Superlatives.Enabled | src/components/Superlatives.jsx:786 | `answers.filter(a => !a.disabled)` is no longer than the pool |
| Superlatives.EnabledMembers | src/components/Superlatives.jsx:786 | a country is enabled exactly when a button that is not crossed off shows it |
| Superlatives.Without | src/components/Superlatives.jsx:778-783 | removing `id` keeps exactly the other countries |
| Superlatives.EnabledAfterCorrect | src/components/Superlatives.jsx:778-786 | after a correct guess, the enabled countries are the old ones without the guessed one |
| Superlatives.EnabledAfterWrong | src/components/Superlatives.jsx:804-809 | a wrong guess crosses nobody off |
| Superlatives.EnabledFresh | src/components/Superlatives.jsx:751-755 | in a new round, every candidate is enabled |
| Superlatives.FitsEnabled | src/components/Superlatives.jsx:768-771 | the answer of the current question is a button that is not crossed off |
| Superlatives.NextQuestionAvoidsGuess | src/components/Superlatives.jsx:786-791 | the next question never names the country just guessed |
| Superlatives.CorrectGuessShrinksPool | src/components/Superlatives.jsx:778-786 | a correct guess crosses off at least one enabled candidate |
| Superlatives.Page.constructor | src/components/Superlatives.jsx:713-718 | mounting the page: four answers, three attempts, no question, no reveal; the score and level are the module-level `currentScore` as the mount finds it, so they carry over from an earlier visit |
| Superlatives.Page.ResetGame | src/components/Superlatives.jsx:737-762 | the reveal is cleared; once data is loaded, a round is found exactly when some draw yields a question, and the page then shows fresh buttons and that question; otherwise it has no question |
| Superlatives.Page.DataLoaded | src/components/Superlatives.jsx:765 | the country query resolving starts the first round |
| Superlatives.Page.MarkCorrectGuess | src/components/Superlatives.jsx:778-783 | in place, the guessed country is crossed off and every incorrect mark is cleared |
| Superlatives.Page.MarkWrongGuess | src/components/Superlatives.jsx:804-809 | in place, only the guessed country is marked incorrect |
| Superlatives.Page.CorrectGuess | src/components/Superlatives.jsx:772-798 | score + 1 and the buttons updated. If more than one country stays enabled and they yield a question, it is asked. Otherwise: level + 1 (uncapped), three attempts, pool `min(n + 1, 12)` and a new round. The page stays valid: the question fits the enabled buttons |
| Superlatives.Page.LevelUp | src/components/Superlatives.jsx:792-797 | level + 1, three attempts, pool size `min(n + 1, 12)`, and a new round of that size |
| Superlatives.Page.WrongGuess | src/components/Superlatives.jsx:799-832 | score − 1 and the guessed button marked. With more than one attempt left, one is removed. On the last one, the page reveals, appends `{score, level}` to the leaderboard, resets the score to `{0, 1}` and arms the restart timer. The attempts never run out |
| Superlatives.Page.Guess | src/components/Superlatives.jsx:768-834 | a guess is ignored without a question or while revealed; otherwise it is a correct or a wrong guess, with the effects above |
| Superlatives.Page.DelayElapsed | src/components/Superlatives.jsx:825-829 | the timer restores three attempts and a pool of four, and starts a new round |
| Text.Split | src/components/TriviaSearch.jsx:64 | `split` gives one more piece than there are separators |
| Text.JoinSplit | src/components/Home.jsx:150-157 | joining the pieces of a split gives the string back |
| Text.SplitJoin | src/components/TriviaSearch.jsx:104 | splitting a join of separator-free parts gives the parts back |
| Text.JoinEmpty | src/components/TriviaSearch.jsx:104-112 | a join of non-empty parts is empty only for no parts |
| Text.Upper | src/components/TriviaSearch.jsx:67 | `toUpperCase` moves `a`-`z` to `A`-`Z` and keeps any other character |
| Text.Pretty | src/components/Home.jsx:148-158 | the reference definition of the prettifier, character by character; each comma adds one character |
| Text.BeautifyIsPretty | src/components/Home.jsx:148-158 | `beautifyCategories` equals the reference definition: `_` becomes a space, `,` becomes `", "`, and every word starts upper-cased |
| Text.BeautifyCategoryIsPretty | src/components/TriviaSearch.jsx:65-68 | one category prettified equals its character-by-character form |
| Text.PrettyCounts | src/components/Home.jsx:148-158 | the prettified text has no `_` and keeps every comma |
| Text.BeautifyShape | src/components/Home.jsx:148-158 | the same number of comma-separated parts, no `_`, and one extra character per part break |
| Text.BeautifyExample | src/components/TriviaSearch.jsx:62-70 | `"a_b,c"` becomes `"A B, C"` |
| Text.PrettyExample | src/components/TriviaSearch.jsx:62-70 | the reference definition maps `"a_b,c"` to `"A B, C"` |
| Text.NatToString | src/components/TriviaSearch.jsx:105 | `${n}` is all digits, without a leading zero |
| Text.ParseNatToString | src/components/TriviaSearch.jsx:105 | reading back `${n}` gives `n` |
| Trivia.Name | src/components/TriviaSearch.jsx:226-237 | each difficulty's name reads back as that difficulty |
| Trivia.PointValue | src/components/TriviaSearch.jsx:38-42 | 10, 20 or 30 points: 10 exactly for easy, 30 exactly for hard |
| Trivia.HarderEarnsMore | src/components/TriviaSearch.jsx:38-42 | points grow strictly with difficulty |
| Trivia.Toggle | src/components/TriviaSearch.jsx:115-121 | only `v`'s membership flips; an absent `v` is appended at the end |
| Trivia.Remove | src/components/TriviaSearch.jsx:118 | `filter(item => item !== v)` keeps exactly the other values |
| Trivia.ToggleKeepsDistinct | src/components/TriviaSearch.jsx:115-121 | toggling keeps the checked list free of duplicates |
| Trivia.DeleteKeepsDistinct | src/components/TriviaSearch.jsx:118 | removing the one occurrence of a checked value keeps the list free of duplicates |
| Trivia.AppendKeepsDistinct | src/components/TriviaSearch.jsx:119 | appending an unchecked value keeps the list free of duplicates |
| Trivia.ToggleTwice | src/components/TriviaSearch.jsx:115-121 | toggling twice restores membership, and restores the list itself when `v` was absent |
| Trivia.AllCategoriesIffNoneChecked | src/components/TriviaSearch.jsx:111-112 | the recorded category is `all_categories` exactly when nothing is checked |
| Trivia.RecordedCategorySplitsBack | src/components/TriviaSearch.jsx:104-112 | a recorded category list splits back on commas into the checked categories |
| Trivia.OptionsWellFormed | src/components/TriviaSearch.jsx:25-36 | every option is non-empty, has no comma, and differs from `all_categories` |
| Trivia.QueryLimitReadsBack | src/components/TriviaSearch.jsx:105 | the `limit=` text reads back as the number of questions |
| Trivia.CorrectCount | src/components/TriviaSearch.jsx:134-137 | at most one correct verdict per history line |
| Trivia.Quiz.constructor | src/components/TriviaSearch.jsx:44-54 | the initial state: no categories, easy, 10 questions, setting up, `currentScore` `{0, 0, "", ""}` |
| Trivia.Quiz.HandleCheckboxChange | src/components/TriviaSearch.jsx:115-121 | the checked list becomes its toggle, and nothing else changes |
| Trivia.Quiz.SetDifficulty | src/components/TriviaSearch.jsx:222 | the difficulty select sets the difficulty |
| Trivia.Quiz.SetNumberOfQuestions | src/components/TriviaSearch.jsx:252-261 | the slider sets a count from 1 to 20 |
| Trivia.Quiz.GenerateQuiz | src/components/TriviaSearch.jsx:102-113 | the query is `base + "categories=" + join(",") + "&limit=" + n + "&difficulty=" + d`; the quiz is shown; `currentScore` becomes `{0, n, d, category}` |
| Trivia.Quiz.ReceiveQuestions | src/components/TriviaSearch.jsx:94-98 | the fetched questions are stored |
| Trivia.Quiz.HandleNextQuestion | src/components/TriviaSearch.jsx:124-163 | exactly one history line per answer; a correct answer adds 1 to the score and the difficulty's points to the total, a wrong one neither. Before the last question, the index advances by one; on the last, the quiz is hidden, the results shown, and exactly one `currentScore` appended to the leaderboard |
| Trivia.Quiz.AnswerResultElapsed | src/components/TriviaSearch.jsx:144-146 | the one-second timer clears the verdict |
| Trivia.Quiz.HandleReset | src/components/TriviaSearch.jsx:165-175 | index 0, no points, no history, no questions or query, and neither quiz nor results shown; choices and the leaderboard stay |
| Trivia.RecordedScoreCountsCorrect | src/components/TriviaSearch.jsx:129-158 | a finished quiz's score counts the correct answers, at most the number answered, and the point total is that count times the difficulty's points |
| Leaderboard.CompareSuperlatives | src/components/Home.jsx:135-143 | the comparator is negative exactly when `a` ranks above `b` by score then level, and positive exactly when `b` does |
| Leaderboard.CompareTrivia | src/components/Home.jsx:118-129 | the comparator is negative exactly when `a` ranks above `b` by score per question then number of questions, and positive exactly when `b` does |
| Leaderboard.RatioCrossMultiplied | src/components/Home.jsx:119-120 | with positive question counts, comparing `score/questions` equals comparing cross products |
| Leaderboard.SortByRank | src/components/Home.jsx:117-129 | the in-place sort leaves the array in rank order and a permutation of its input |
| Leaderboard.InsertLast | src/components/Home.jsx:117-129 | one insertion step extends the ranked prefix by one and permutes the array |
| Leaderboard.TopIsBest | src/components/Home.jsx:130 | of a ranked list, nothing left out of the first `n` ranks above anything kept |
| Leaderboard.SortSuperlativesScores | src/components/Home.jsx:133-145 | sorted in place by score, ties by higher level first, a permutation; the result is the first `min(30, n)` entries |
| Leaderboard.SortTriviaScores | src/components/Home.jsx:116-131 | sorted in place by score per question, ties by more questions first, a permutation; the result is the first `min(10, n)` entries |
| Leaderboard.OfDifficulty | src/components/Home.jsx:103-111 | the bucket holds exactly the entries of that difficulty |
| Leaderboard.OtherDifficulties | src/components/Home.jsx:162-164 | the cleared list holds exactly the entries of other difficulties |
| Leaderboard.Bucket | src/components/Home.jsx:103-111 | a missing cookie gives an empty bucket; otherwise it holds exactly the entries of that difficulty |
| Leaderboard.BucketCounts | src/components/Home.jsx:103-111 | a bucket holds each entry of its difficulty as often as the list does, and nothing else |
| Leaderboard.BucketsPartition | src/components/Home.jsx:103-111 | a difficulty's entries and the other entries split the list between them |
| Leaderboard.ClearKeepsOtherBuckets | src/components/Home.jsx:160-167 | clearing one difficulty leaves every other bucket as it was, in order |
| Leaderboard.ClearEmptiesBucket | src/components/Home.jsx:160-167 | clearing a difficulty empties its bucket |
| Leaderboard.Home.constructor | src/components/Home.jsx:93-96 | the page reads both leaderboard cookies |
| Leaderboard.Home.Scores | src/components/Home.jsx:103-111 | each difficulty heading lists only entries of that difficulty |
| Leaderboard.Home.ClearLeaderboard | src/components/Home.jsx:160-171 | a difficulty stores the trivia list without its entries (an empty list when there was no cookie) and leaves the Superlatives list; `"superlatives"` stores an empty Superlatives list and leaves the trivia list |

## Left out

- Rendering, styling and reveal text (`getRevealText`, the styled components, `AnswerBox`, `AttemptCounter`, `QuestionBox`, `Help`, `Intl.NumberFormat`): this is UI only. A question is its metric and its answer.
- Question text: each question is identified by its metric, an attribute and a direction, not by its English text.
- `Math.random` shuffles: they are parameters. `order` is any permutation of the catalogue. Each `resetGame` draw is a given shuffled country list with a given catalogue order.
- Superlatives.Page.ResetGame: the source's `while (!question)` loop is unbounded and ends with probability 1. The model tries a finite list of draws and leaves the page without a question when all of them fail.
- Floating-point numbers: coordinates, area, density and `score / questions` are exact reals. Ties that floating-point rounding would create or hide are not modelled.
- Leaderboard.Ratio: an entry with zero questions (`0/0` is `NaN` in JavaScript) ranks with ratio 0. The trivia page always records at least one question.
- Text.Upper: upper-cases ASCII letters only. The categories and difficulties the pages pass are ASCII; JavaScript's full Unicode case mapping and UTF-16 code units are not modelled.
- Leaderboard.SortByRank: states rank order and permutation but not stability. `Array.prototype.sort` is stable, so entries the comparator ranks equal keep their cookie order in the source; the model leaves their order open.
- Fetching: the country data and trivia questions arrive as events (`DataLoaded`, `ReceiveQuestions`). `useQuery`, `refetch` and the network are not modelled.
- Cookies: the leaderboards are sequences. `setCookie` and JSON serialisation are not modelled.
- Timers: the five-second restart is `DelayElapsed` and the one-second verdict timer is `AnswerResultElapsed`. Their timing and interleaving are not modelled.
- React scheduling:
  - The correct-guess branch calls `resetGame` while the `nAnswers` effect calls it again with the new size. This is modelled as one restart with the new size; the same holds for the restart timer.
  - Batched `setState` and the same-reference bailout on `setGuess` are not modelled.
- `preventDoubleEntry` is only ever written, never read, so it is not modelled.
- Trivia.Quiz.HandleNextQuestion, SetDifficulty, SetNumberOfQuestions and GenerateQuiz: the page shows their controls only in certain phases, and each method requires that phase. The controls are a question being shown, or the setup screen with the slider bounded to 1..20.
- `console.log` calls and the unused `points` local of `handleNextQuestion` are not modelled.
- Superlatives.Page.Guess: for a correct guess it states the score and the level step. The pool and question are stated by `CorrectGuess`, which it calls.
