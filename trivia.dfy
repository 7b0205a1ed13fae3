/**
 * The trivia quiz page (src/components/TriviaSearch.jsx, `Search`):
 * choosing categories, building the question query, answering
 * questions one by one with a running score and point total, recording
 * the result on the leaderboard, and resetting.
 */
module Trivia {
  import opened Wrappers
  import opened Text

  /** The difficulty chosen in the select box. */
  datatype Difficulty = Easy | Medium | Hard

  /** The difficulty as the query and the leaderboard spell it. */
  function Name(d: Difficulty): (s: string)
    ensures Named(s) == Some(d)
  {
    match d
    case Easy => "easy"
    case Medium => "medium"
    case Hard => "hard"
  }

  /** The difficulty a name spells, if any. */
  function Named(s: string): Option<Difficulty> {
    if s == "easy" then Some(Easy)
    else if s == "medium" then Some(Medium)
    else if s == "hard" then Some(Hard)
    else None
  }

  /** `pointValues[difficulty]`: the points a correct answer earns. */
  function PointValue(d: Difficulty): (p: nat)
    ensures p % 10 == 0 && 10 <= p <= 30
    ensures d == Easy <==> p == 10
    ensures d == Hard <==> p == 30
  {
    match d
    case Easy => 10
    case Medium => 20
    case Hard => 30
  }

  /** A harder quiz earns strictly more points per correct answer. */
  lemma HarderEarnsMore()
    ensures PointValue(Easy) < PointValue(Medium) < PointValue(Hard)
  {
  }

  /** `currentScore` and the leaderboard entries it becomes. */
  datatype TriviaEntry = TriviaEntry(score: int, questions: int, difficulty: string, category: string)

  /** A fetched question: its text and the right answer. */
  datatype Question = Question(text: string, correctAnswer: string)

  /** The verdict shown for an answer. */
  datatype Verdict = Correct | Incorrect

  /** One line of the answer history: the question, the verdict and the right answer. */
  datatype HistoryEntry = HistoryEntry(question: string, verdict: Verdict, correctAnswer: string)

  /** The ten category checkboxes. */
  const CategoryOptions: seq<string> := [
    "music", "sport_and_leisure", "film_and_tv", "arts_and_literature", "history",
    "society_and_culture", "science", "geography", "food_and_drink", "general_knowledge"
  ]

  const BaseUrl: string := "https://the-trivia-api.com/api/questions?"
  const AllCategories: string := "all_categories"
  const MinQuestions: nat := 1
  const MaxQuestions: nat := 20

  /**
   * The checkbox updater: `v` removed everywhere when present, appended
   * at the end otherwise. Only the membership of `v` changes.
   */
  function Toggle(s: seq<string>, v: string): (r: seq<string>)
    ensures v in r <==> v !in s
    ensures forall w :: w != v ==> (w in r <==> w in s)
    ensures v !in s ==> r == s + [v]
  {
    if v in s then Remove(s, v) else s + [v]
  }

  /** `s.filter(item => item !== v)`. */
  function Remove(s: seq<string>, v: string): (r: seq<string>)
    ensures forall w :: w in r <==> w in s && w != v
    ensures |r| <= |s|
  {
    if s == [] then []
    else if s[0] == v then Remove(s[1..], v)
    else [s[0]] + Remove(s[1..], v)
  }

  /** No value occurs twice. */
  predicate NoDuplicates(s: seq<string>) {
    forall i, j :: 0 <= i < j < |s| ==> s[i] != s[j]
  }

  /** Removing a value from a list that holds it once leaves the list without that one entry. */
  lemma {:induction false} RemoveSingle(s: seq<string>, v: string, k: nat)
    requires NoDuplicates(s) && k < |s| && s[k] == v
    ensures Remove(s, v) == s[..k] + s[k + 1..]
  {
    if k > 0 {
      RemoveSingle(s[1..], v, k - 1);
      assert s[0] != v;
      assert s[..k] == [s[0]] + s[1..][..k - 1];
      assert s[k + 1..] == s[1..][k..];
    } else {
      RemoveAbsent(s[1..], v);
    }
  }

  /** Removing a value that is absent changes nothing. */
  lemma {:induction false} RemoveAbsent(s: seq<string>, v: string)
    requires v !in s
    ensures Remove(s, v) == s
  {
    if s != [] {
      assert s[0] in s && forall w :: w in s[1..] ==> w in s;
      RemoveAbsent(s[1..], v);
      assert [s[0]] + s[1..] == s;
    }
  }

  /** Removing a value appended to a list without it gives back the list. */
  lemma {:induction false} RemoveAppended(s: seq<string>, v: string)
    requires v !in s
    ensures Remove(s + [v], v) == s
  {
    if s != [] {
      assert s[0] in s && forall w :: w in s[1..] ==> w in s;
      RemoveAppended(s[1..], v);
      assert (s + [v])[1..] == s[1..] + [v];
      assert [s[0]] + s[1..] == s;
    }
  }

  /** Toggling keeps a list of distinct values distinct. */
  lemma ToggleKeepsDistinct(s: seq<string>, v: string)
    requires NoDuplicates(s)
    ensures NoDuplicates(Toggle(s, v))
  {
    if v in s {
      var k :| 0 <= k < |s| && s[k] == v;
      RemoveSingle(s, v, k);
      DeleteKeepsDistinct(s, k);
    } else {
      AppendKeepsDistinct(s, v);
    }
  }

  /** Deleting one entry keeps a list of distinct values distinct. */
  lemma DeleteKeepsDistinct(s: seq<string>, k: nat)
    requires NoDuplicates(s) && k < |s|
    ensures NoDuplicates(s[..k] + s[k + 1..])
  {
    var r := s[..k] + s[k + 1..];
    forall i, j | 0 <= i < j < |r| ensures r[i] != r[j] {
      var i', j' := if i < k then i else i + 1, if j < k then j else j + 1;
      assert r[i] == s[i'] && r[j] == s[j'] && i' < j';
    }
  }

  /** Appending a new value keeps a list of distinct values distinct. */
  lemma AppendKeepsDistinct(s: seq<string>, v: string)
    requires NoDuplicates(s) && v !in s
    ensures NoDuplicates(s + [v])
  {
    var r := s + [v];
    forall i, j | 0 <= i < j < |r| ensures r[i] != r[j] {
      if j == |s| {
        assert r[i] == s[i] && r[j] == v;
      } else {
        assert r[i] == s[i] && r[j] == s[j];
      }
    }
  }

  /**
   * Toggling twice restores membership; starting from a list without
   * `v` it restores the list itself.
   */
  lemma ToggleTwice(s: seq<string>, v: string)
    ensures forall w :: w in Toggle(Toggle(s, v), v) <==> w in s
    ensures v !in s ==> Toggle(Toggle(s, v), v) == s
  {
    if v !in s {
      RemoveAppended(s, v);
    }
  }

  /** The `categories=` value: the checked categories joined with commas. */
  function CategoryString(checked: seq<string>): string {
    Join(checked, ",")
  }

  /** The query `generateQuiz` sends. */
  function QueryUrl(checked: seq<string>, n: nat, d: Difficulty): string {
    BaseUrl + "categories=" + CategoryString(checked) + "&limit=" + NatToString(n) + "&difficulty=" + Name(d)
  }

  /** The category `generateQuiz` records: the joined list, or `all_categories` for none. */
  function RecordedCategory(checked: seq<string>): string {
    var joined := CategoryString(checked);
    if joined == "" then AllCategories else joined
  }

  /** Every checked value is one of the checkbox categories. */
  ghost predicate FromOptions(checked: seq<string>) {
    forall v :: v in checked ==> v in CategoryOptions
  }

  /** The recorded category is `all_categories` exactly when nothing is checked. */
  lemma AllCategoriesIffNoneChecked(checked: seq<string>)
    requires FromOptions(checked)
    ensures RecordedCategory(checked) == AllCategories <==> checked == []
  {
    OptionsWellFormed();
    assert forall i :: 0 <= i < |checked| ==> checked[i] in checked;
    JoinEmpty(checked, ",");
    if |checked| == 1 {
      assert checked[0] in checked;
    } else if |checked| > 1 {
      var joined := Join(checked, ",");
      assert joined == checked[0] + "," + Join(checked[1..], ",");
      assert joined[|checked[0]|] == ',';
      assert ',' !in AllCategories;
    }
  }

  /** A non-empty recorded category splits back on commas into the checked list. */
  lemma RecordedCategorySplitsBack(checked: seq<string>)
    requires FromOptions(checked) && checked != []
    ensures Split(RecordedCategory(checked), ',') == checked
  {
    AllCategoriesIffNoneChecked(checked);
    OptionsWellFormed();
    assert forall i :: 0 <= i < |checked| ==> checked[i] in checked;
    SplitJoin(checked, ',');
  }

  /** Every category option is non-empty and free of commas. */
  lemma OptionsWellFormed()
    ensures forall v :: v in CategoryOptions ==> v != "" && ',' !in v && v != AllCategories
  {
  }

  /** The number of questions the query asks for reads back from its `limit=` text. */
  lemma QueryLimitReadsBack(n: nat)
    ensures ParseNat(NatToString(n)) == n
  {
    ParseNatToString(n);
  }

  /** The number of correct verdicts in a history. */
  function CorrectCount(h: seq<HistoryEntry>): (k: nat)
    ensures k <= |h|
  {
    if h == [] then 0 else CorrectCount(h[..|h| - 1]) + (if h[|h| - 1].verdict == Correct then 1 else 0)
  }

  /** The trivia page's state, with the module-level `currentScore` and the leaderboard cookie. */
  class Quiz {
    var checkedValues: seq<string>
    var difficulty: Difficulty
    var numberOfQuestions: nat
    var inputQuery: string
    var questions: seq<Question>
    var index: nat
    var answerResult: Option<Verdict>
    var displayQuiz: bool
    var pointTotal: nat
    var triviaResults: bool
    var answerHistory: seq<HistoryEntry>
    var currentScore: TriviaEntry
    /** The `triviaLeaderboard` cookie. */
    var leaderboard: seq<TriviaEntry>

    /**
     * The page is in one of three phases: setting up (nothing answered),
     * quizzing (one history line per question passed, the score counting
     * the correct ones) or showing results (the last question answered
     * too). The point total is always the difficulty's points per correct
     * answer.
     */
    ghost predicate Valid()
      reads this
    {
      MinQuestions <= numberOfQuestions <= MaxQuestions &&
      FromOptions(checkedValues) && NoDuplicates(checkedValues) &&
      !(displayQuiz && triviaResults) &&
      pointTotal == PointValue(difficulty) * CorrectCount(answerHistory) &&
      (!displayQuiz && !triviaResults ==> answerHistory == [] && index == 0) &&
      (displayQuiz ==> |answerHistory| == index && currentScore.score == CorrectCount(answerHistory)) &&
      (triviaResults ==> |answerHistory| == index + 1 && currentScore.score == CorrectCount(answerHistory))
    }

    constructor (cookie: seq<TriviaEntry>)
      ensures Valid()
      ensures checkedValues == [] && difficulty == Easy && numberOfQuestions == 10 && inputQuery == ""
      ensures questions == [] && index == 0 && answerResult.None? && !displayQuiz && pointTotal == 0
      ensures !triviaResults && answerHistory == [] && currentScore == TriviaEntry(0, 0, "", "")
      ensures leaderboard == cookie
    {
      checkedValues, difficulty, numberOfQuestions, inputQuery := [], Easy, 10, "";
      questions, index, answerResult, displayQuiz := [], 0, None, false;
      pointTotal, triviaResults, answerHistory := 0, false, [];
      currentScore := TriviaEntry(0, 0, "", "");
      leaderboard := cookie;
    }

    /** A category checkbox changing: toggle that category. */
    method HandleCheckboxChange(v: string)
      requires Valid() && v in CategoryOptions
      modifies this
      ensures Valid()
      ensures checkedValues == Toggle(old(checkedValues), v)
      ensures unchanged(this`difficulty, this`numberOfQuestions, this`questions, this`index, this`answerHistory)
      ensures unchanged(this`displayQuiz, this`triviaResults, this`pointTotal, this`currentScore, this`leaderboard)
      ensures unchanged(this`inputQuery, this`answerResult)
    {
      ToggleKeepsDistinct(checkedValues, v);
      checkedValues := Toggle(checkedValues, v);
    }

    /** The difficulty select changing, offered only while setting up. */
    method SetDifficulty(d: Difficulty)
      requires Valid() && !displayQuiz && !triviaResults
      modifies this`difficulty
      ensures Valid() && difficulty == d
    {
      difficulty := d;
    }

    /** The slider changing the number of questions (1 to 20), offered only while setting up. */
    method SetNumberOfQuestions(n: nat)
      requires Valid() && !displayQuiz && !triviaResults
      requires MinQuestions <= n <= MaxQuestions
      modifies this`numberOfQuestions
      ensures Valid() && numberOfQuestions == n
    {
      numberOfQuestions := n;
    }

    /**
     * `generateQuiz`: send the query for the checked categories, the
     * number of questions and the difficulty, show the quiz, and start
     * `currentScore` at zero out of that many questions.
     */
    method GenerateQuiz()
      requires Valid() && !displayQuiz && !triviaResults
      modifies this
      ensures Valid() && displayQuiz
      ensures inputQuery == QueryUrl(checkedValues, numberOfQuestions, difficulty)
      ensures currentScore == TriviaEntry(0, numberOfQuestions, Name(difficulty), RecordedCategory(checkedValues))
      ensures unchanged(this`checkedValues, this`difficulty, this`numberOfQuestions, this`questions, this`index)
      ensures unchanged(this`answerHistory, this`pointTotal, this`triviaResults, this`leaderboard, this`answerResult)
    {
      var categoryString := CategoryString(checkedValues);
      inputQuery := BaseUrl + "categories=" + categoryString + "&limit=" + NatToString(numberOfQuestions) +
                    "&difficulty=" + Name(difficulty);
      displayQuiz := true;
      currentScore := currentScore.(score := 0);
      currentScore := currentScore.(questions := numberOfQuestions);
      currentScore := currentScore.(difficulty := Name(difficulty));
      currentScore := currentScore.(category := if categoryString == "" then AllCategories else categoryString);
    }

    /** The fetched questions arriving. */
    method ReceiveQuestions(data: seq<Question>)
      requires Valid()
      modifies this`questions
      ensures Valid() && questions == data
    {
      questions := data;
    }

    /**
     * `handleNextQuestion(selected)`, offered while a question is shown:
     * record the verdict, and either move to the next question or, on
     * the last one, finish: hide the quiz, show the results and append
     * `currentScore` to the leaderboard.
     */
    method HandleNextQuestion(selected: string)
      requires Valid() && displayQuiz && !triviaResults && index < |questions|
      modifies this
      ensures Valid()
      ensures var q := old(questions[index]);
              var verdict := if selected == q.correctAnswer then Correct else Incorrect;
              answerHistory == old(answerHistory) + [HistoryEntry(q.text, verdict, q.correctAnswer)] &&
              currentScore.score == old(currentScore.score) + (if verdict == Correct then 1 else 0) &&
              pointTotal == old(pointTotal) + (if verdict == Correct then PointValue(difficulty) else 0) &&
              if old(index) < |questions| - 1 then
                index == old(index) + 1 && displayQuiz && !triviaResults &&
                answerResult == Some(verdict) && leaderboard == old(leaderboard)
              else
                index == old(index) && !displayQuiz && triviaResults && answerResult.None? &&
                leaderboard == old(leaderboard) + [currentScore]
      ensures currentScore == old(currentScore).(score := currentScore.score)
      ensures unchanged(this`checkedValues, this`difficulty, this`numberOfQuestions, this`questions, this`inputQuery)
    {
      var currentQuestion := questions[index];
      ghost var k := CorrectCount(answerHistory);
      if selected == currentQuestion.correctAnswer {
        answerResult := Some(Correct);
        currentScore := currentScore.(score := currentScore.score + 1);
        pointTotal := pointTotal + PointValue(difficulty);
        answerHistory := answerHistory + [HistoryEntry(currentQuestion.text, Correct, currentQuestion.correctAnswer)];
        assert answerHistory[..|answerHistory| - 1] == old(answerHistory);
        assert CorrectCount(answerHistory) == k + 1;
        assert pointTotal == PointValue(difficulty) * (k + 1);
      } else {
        answerResult := Some(Incorrect);
        answerHistory := answerHistory + [HistoryEntry(currentQuestion.text, Incorrect, currentQuestion.correctAnswer)];
        assert answerHistory[..|answerHistory| - 1] == old(answerHistory);
        assert CorrectCount(answerHistory) == k;
      }
      if index < |questions| - 1 {
        index := index + 1;
      } else {
        answerResult := None;
        displayQuiz := false;
        triviaResults := true;
        leaderboard := leaderboard + [currentScore];
      }
    }

    /** The one-second timer after an answer firing: hide the verdict. */
    method AnswerResultElapsed()
      requires Valid()
      modifies this`answerResult
      ensures Valid() && answerResult.None?
    {
      answerResult := None;
    }

    /**
     * `handleReset`: back to setting up, with no query, no questions, no
     * history and no points. The choices and the leaderboard stay.
     */
    method HandleReset()
      requires Valid()
      modifies this
      ensures Valid()
      ensures inputQuery == "" && questions == [] && index == 0 && answerResult.None?
      ensures answerHistory == [] && pointTotal == 0 && !displayQuiz && !triviaResults
      ensures unchanged(this`checkedValues, this`difficulty, this`numberOfQuestions, this`currentScore, this`leaderboard)
    {
      inputQuery := "";
      questions := [];
      index := 0;
      answerResult := None;
      answerHistory := [];
      pointTotal := 0;
      displayQuiz := false;
      triviaResults := false;
    }
  }

  /**
   * The score a finished quiz records counts the correct answers of its
   * history, so it never exceeds the number of questions answered.
   */
  lemma RecordedScoreCountsCorrect(quiz: Quiz)
    requires quiz.Valid() && quiz.triviaResults
    ensures quiz.currentScore.score == CorrectCount(quiz.answerHistory) <= |quiz.answerHistory|
    ensures quiz.pointTotal == PointValue(quiz.difficulty) * quiz.currentScore.score
  {
  }
}
