/**
 * The round state machine of the Superlatives page
 * (src/components/Superlatives.jsx, `SuperlativesPage`): `resetGame`, the
 * guess-handling effect, the five-second reveal timer and the
 * module-level `currentScore` that is appended to the leaderboard when a
 * game ends.
 */
module Superlatives {
  import opened Wrappers
  import opened Countries
  import opened Reducers
  import opened Resolver

  /** A country on an answer button, with the two per-round flags. */
  datatype Candidate = Candidate(country: Country, disabled: bool, incorrectGuess: bool)

  /** One leaderboard entry: `currentScore` at the end of a game. */
  datatype ScoreEntry = ScoreEntry(score: int, level: int)

  /**
   * One pass of `resetGame`'s retry loop: the shuffled country list and
   * the shuffled catalogue `generateRandomQuestion` uses.
   */
  datatype Draw = Draw(countries: seq<Country>, order: seq<Metric>)

  /** The attempts list of a fresh game: three hearts. */
  const FullAttempts: seq<nat> := [0, 1, 2]
  const StartPoolSize: nat := 4
  const MaxPoolSize: nat := 12

  /** The first `n` entries of `s`, or all of them (`Array.prototype.slice(0, n)`). */
  function Take<T>(s: seq<T>, n: nat): (r: seq<T>)
    ensures |r| <= n && |r| <= |s| && r == s[..|r|]
    ensures |s| >= n ==> |r| == n
    ensures |s| < n ==> r == s
  {
    if |s| <= n then s else s[..n]
  }

  /** Every draw shuffles the loaded countries and the catalogue. */
  ghost predicate DrawsFrom(draws: seq<Draw>, all: seq<Country>) {
    forall d :: d in draws ==> multiset(d.countries) == multiset(all) && IsShuffle(d.order)
  }

  /**
   * The pool and question of the first draw for which
   * `generateRandomQuestion` succeeds, the pool being the first `n`
   * countries of the draw.
   */
  function FirstGoodDraw(draws: seq<Draw>, n: nat): (r: Option<(seq<Country>, Question)>)
    ensures r.Some? ==> |r.value.0| <= n
    ensures r.None? ==> forall d :: d in draws ==> SelectQuestion(Take(d.countries, n), d.order).None?
  {
    if draws == [] then None
    else
      var pool := Take(draws[0].countries, n);
      var q := SelectQuestion(pool, draws[0].order);
      if q.Some? then Some((pool, q.value))
      else
        assert forall d :: d in draws ==> d == draws[0] || d in draws[1..];
        FirstGoodDraw(draws[1..], n)
  }

  /**
   * A round `FirstGoodDraw` starts comes from one of the draws: its pool
   * is that draw's first `n` countries and its question the one
   * `generateRandomQuestion` gives for that pool and that draw's order.
   */
  lemma {:induction false} FirstGoodDrawFromSomeDraw(draws: seq<Draw>, n: nat)
    requires FirstGoodDraw(draws, n).Some?
    ensures var r := FirstGoodDraw(draws, n).value;
            exists d :: d in draws && r.0 == Take(d.countries, n) && SelectQuestion(r.0, d.order) == Some(r.1)
  {
    var pool := Take(draws[0].countries, n);
    if SelectQuestion(pool, draws[0].order).None? {
      FirstGoodDrawFromSomeDraw(draws[1..], n);
      var r := FirstGoodDraw(draws, n).value;
      var d :| d in draws[1..] && r.0 == Take(d.countries, n) && SelectQuestion(r.0, d.order) == Some(r.1);
      assert d in draws;
    }
  }

  /** `cs` are the candidates of a new round on `pool`: every flag clear. */
  ghost predicate NewRoundOf(cs: seq<Candidate>, pool: seq<Country>) {
    |cs| == |pool| && forall i :: 0 <= i < |cs| ==> cs[i] == Candidate(pool[i], false, false)
  }

  /** The countries of the candidates not yet crossed off, in order (`answers.filter(a => !a.disabled)`). */
  function Enabled(cs: seq<Candidate>): (r: seq<Country>)
    ensures |r| <= |cs|
  {
    if cs == [] then []
    else
      var rest := Enabled(cs[1..]);
      if cs[0].disabled then rest else [cs[0].country] + rest
  }

  /** A country is enabled exactly when some button shows it and is not crossed off. */
  lemma {:induction false} EnabledMembers(cs: seq<Candidate>, c: Country)
    ensures c in Enabled(cs) <==> exists i :: 0 <= i < |cs| && !cs[i].disabled && cs[i].country == c
  {
    if cs != [] {
      EnabledMembers(cs[1..], c);
      assert forall i :: 1 <= i < |cs| ==> cs[i] == cs[1..][i - 1];
      if c in Enabled(cs[1..]) {
        var i :| 0 <= i < |cs[1..]| && !cs[1..][i].disabled && cs[1..][i].country == c;
        assert cs[i + 1] == cs[1..][i];
      }
    }
  }

  /** A correct guess of `id`: cross that country off and clear every incorrect mark. */
  function AfterCorrect(c: Candidate, id: string): Candidate {
    Candidate(c.country, c.disabled || c.country.id == id, false)
  }

  /** A wrong guess of `id`: mark that country incorrect. */
  function AfterWrong(c: Candidate, id: string): Candidate {
    c.(incorrectGuess := c.incorrectGuess || c.country.id == id)
  }

  function MapCorrect(cs: seq<Candidate>, id: string): seq<Candidate> {
    seq(|cs|, i requires 0 <= i < |cs| => AfterCorrect(cs[i], id))
  }

  function MapWrong(cs: seq<Candidate>, id: string): seq<Candidate> {
    seq(|cs|, i requires 0 <= i < |cs| => AfterWrong(cs[i], id))
  }

  /** `s` without the countries whose code is `id`. */
  function Without(s: seq<Country>, id: string): (r: seq<Country>)
    ensures forall c :: c in r <==> c in s && c.id != id
  {
    if s == [] then []
    else if s[0].id == id then Without(s[1..], id)
    else [s[0]] + Without(s[1..], id)
  }

  /** After a correct guess of `id`, the enabled countries are the old ones without `id`. */
  lemma {:induction false} EnabledAfterCorrect(cs: seq<Candidate>, id: string)
    ensures Enabled(MapCorrect(cs, id)) == Without(Enabled(cs), id)
  {
    if cs != [] {
      EnabledAfterCorrect(cs[1..], id);
      assert MapCorrect(cs, id)[1..] == MapCorrect(cs[1..], id);
    }
  }

  /** A wrong guess crosses nobody off. */
  lemma {:induction false} EnabledAfterWrong(cs: seq<Candidate>, id: string)
    ensures Enabled(MapWrong(cs, id)) == Enabled(cs)
  {
    if cs != [] {
      EnabledAfterWrong(cs[1..], id);
      assert MapWrong(cs, id)[1..] == MapWrong(cs[1..], id);
    }
  }

  /** A new round has every candidate enabled. */
  lemma {:induction false} EnabledFresh(cs: seq<Candidate>, pool: seq<Country>)
    requires NewRoundOf(cs, pool)
    ensures Enabled(cs) == pool
  {
    if pool != [] {
      EnabledFresh(cs[1..], pool[1..]);
    }
  }

  /** Removing a country that is present makes the list strictly shorter. */
  lemma {:induction false} WithoutShrinks(s: seq<Country>, id: string)
    ensures |Without(s, id)| <= |s|
    ensures (exists c :: c in s && c.id == id) ==> |Without(s, id)| < |s|
  {
    if s != [] {
      WithoutShrinks(s[1..], id);
      if s[0].id != id {
        assert forall c :: c in s && c.id == id ==> c in s[1..];
      }
    }
  }

  /**
   * A question that fits the candidates: its metric accepts the enabled
   * countries and its answer is their fold's top.
   */
  ghost predicate Fits(q: Question, cs: seq<Candidate>) {
    Accepted(q.metric, Enabled(cs)) && q.correctAnswer == Resolve(q.metric, Enabled(cs)).top
  }

  /** A fitting question's answer is an enabled candidate. */
  lemma FitsEnabled(q: Question, cs: seq<Candidate>)
    requires Fits(q, cs)
    ensures exists i :: 0 <= i < |cs| && !cs[i].disabled && cs[i].country == q.correctAnswer
  {
    EnabledMembers(cs, q.correctAnswer);
  }

  /**
   * After a correct guess, the next question (when there is one) is drawn
   * from the remaining candidates and never names the guessed country.
   */
  lemma NextQuestionAvoidsGuess(cs: seq<Candidate>, id: string, order: seq<Metric>)
    requires SelectQuestion(Enabled(MapCorrect(cs, id)), order).Some?
    ensures SelectQuestion(Enabled(MapCorrect(cs, id)), order).value.correctAnswer.id != id
  {
    EnabledAfterCorrect(cs, id);
  }

  /** A question selected from the enabled candidates fits them. */
  lemma SelectedFits(cs: seq<Candidate>, order: seq<Metric>)
    requires SelectQuestion(Enabled(cs), order).Some?
    ensures Fits(SelectQuestion(Enabled(cs), order).value, cs)
  {
  }

  /**
   * A correct guess of the current answer crosses off at least one
   * enabled candidate.
   */
  lemma CorrectGuessShrinksPool(q: Question, cs: seq<Candidate>)
    requires Fits(q, cs)
    ensures |Enabled(MapCorrect(cs, q.correctAnswer.id))| < |Enabled(cs)|
  {
    EnabledAfterCorrect(cs, q.correctAnswer.id);
    WithoutShrinks(Enabled(cs), q.correctAnswer.id);
  }

  /** The round `FirstGoodDraw` starts has at least two candidates and fits its fresh candidates. */
  lemma FirstGoodDrawFits(draws: seq<Draw>, n: nat, cs: seq<Candidate>)
    requires FirstGoodDraw(draws, n).Some?
    requires NewRoundOf(cs, FirstGoodDraw(draws, n).value.0)
    ensures 2 <= |FirstGoodDraw(draws, n).value.0| <= n
    ensures Fits(FirstGoodDraw(draws, n).value.1, cs)
  {
    FirstGoodDrawFromSomeDraw(draws, n);
    var r := FirstGoodDraw(draws, n).value;
    var d :| d in draws && r.0 == Take(d.countries, n) && SelectQuestion(r.0, d.order) == Some(r.1);
    EnabledFresh(cs, r.0);
  }

  /**
   * `resetGame`'s `while (!question)` loop over the given draws: slice
   * the first `n` shuffled countries and ask for a question, until one
   * comes back.
   */
  method DrawUntilQuestion(draws: seq<Draw>, n: nat) returns (r: Option<(seq<Country>, Question)>)
    requires forall d :: d in draws ==> IsShuffle(d.order)
    ensures r == FirstGoodDraw(draws, n)
  {
    var j := 0;
    var question: Option<Question> := None;
    var selected: seq<Country> := [];
    while question.None? && j < |draws|
      invariant 0 <= j <= |draws|
      invariant question.None? ==> FirstGoodDraw(draws, n) == FirstGoodDraw(draws[j..], n)
      invariant question.Some? ==> FirstGoodDraw(draws, n) == Some((selected, question.value))
    {
      assert draws[j] in draws;
      selected := Take(draws[j].countries, n);
      question := GenerateRandomQuestion(selected, draws[j].order);
      assert draws[j..][1..] == draws[j + 1..];
      j := j + 1;
    }
    if question.None? {
      assert draws[j..] == [];
      return None;
    }
    return Some((selected, question.value));
  }

  /** The answer buttons of a new round on `pool`, every flag clear. */
  method NewRound(pool: seq<Country>) returns (a: array<Candidate>)
    ensures fresh(a) && NewRoundOf(a[..], pool)
  {
    a := new Candidate[|pool|];
    for i := 0 to |pool|
      invariant forall k :: 0 <= k < i ==> a[k] == Candidate(pool[k], false, false)
    {
      a[i] := Candidate(pool[i], false, false);
    }
  }

  /** The Superlatives page and the module-level score it reports. */
  class Page {
    var nAnswers: nat
    var answers: array<Candidate>
    var attempts: seq<nat>
    var question: Option<Question>
    var revealed: bool
    /** The five-second timer armed when a game ends. */
    var restartPending: bool
    /** `currentScore.score` and `currentScore.level`. */
    var score: int
    var level: int
    /** The `superlativeLeaderboard` cookie. */
    var leaderboard: seq<ScoreEntry>
    /** The country data, once the query has loaded. */
    var allCountries: Option<seq<Country>>

    ghost predicate Valid()
      reads this, answers
    {
      StartPoolSize <= nAnswers <= MaxPoolSize &&
      1 <= |attempts| <= |FullAttempts| && attempts == FullAttempts[..|attempts|] &&
      level >= 1 &&
      (allCountries.None? ==> question.None?) &&
      (question.Some? ==> Fits(question.value, answers[..]))
    }

    /**
     * Mounting the page: fresh page state, with the leaderboard cookie and
     * the module-level `currentScore` as the mount finds them (a score and
     * level carried over from an earlier visit to the page).
     */
    constructor (cookie: seq<ScoreEntry>, carried: ScoreEntry)
      requires carried.level >= 1
      ensures Valid()
      ensures nAnswers == StartPoolSize && answers.Length == 0 && attempts == FullAttempts
      ensures question.None? && !revealed && !restartPending
      ensures score == carried.score && level == carried.level && leaderboard == cookie && allCountries.None?
    {
      nAnswers := StartPoolSize;
      answers := new Candidate[0];
      attempts := FullAttempts;
      question := None;
      revealed := false;
      restartPending := false;
      score, level := carried.score, carried.level;
      leaderboard := cookie;
      allCountries := None;
    }

    /**
     * `resetGame`: clear the reveal; once the data is loaded, draw pools
     * of `nAnswers` countries until one yields a question, and start a
     * round on it. When every draw given fails the page is left without
     * a question.
     */
    method ResetGame(draws: seq<Draw>) returns (found: bool)
      requires Valid()
      requires allCountries.Some? ==> DrawsFrom(draws, allCountries.value)
      modifies this
      ensures Valid() && !revealed
      ensures nAnswers == old(nAnswers) && attempts == old(attempts) && score == old(score)
      ensures level == old(level) && leaderboard == old(leaderboard)
      ensures allCountries == old(allCountries) && restartPending == old(restartPending)
      ensures found <==> allCountries.Some? && FirstGoodDraw(draws, nAnswers).Some?
      ensures found ==> (fresh(answers) && question.Some? &&
                FirstGoodDraw(draws, nAnswers) == Some((Enabled(answers[..]), question.value)) &&
                NewRoundOf(answers[..], Enabled(answers[..])))
      ensures !found ==> answers == old(answers)
      ensures !found && allCountries.Some? ==> question.None?
      ensures allCountries.None? ==> question == old(question)
    {
      revealed := false;
      if allCountries.None? {
        return false;
      }
      var drawn := DrawUntilQuestion(draws, nAnswers);
      if drawn.None? {
        question := None;
        return false;
      }
      var pool := drawn.value.0;
      var round := NewRound(pool);
      EnabledFresh(round[..], pool);
      FirstGoodDrawFits(draws, nAnswers, round[..]);
      answers, question := round, Some(drawn.value.1);
      return true;
    }

    /** The data query resolving: store the countries and start the first round. */
    method DataLoaded(countries: seq<Country>, draws: seq<Draw>) returns (found: bool)
      requires Valid()
      requires DrawsFrom(draws, countries)
      modifies this
      ensures Valid() && !revealed && allCountries == Some(countries)
      ensures nAnswers == old(nAnswers) && attempts == old(attempts) && score == old(score)
      ensures level == old(level) && leaderboard == old(leaderboard) && restartPending == old(restartPending)
      ensures found <==> FirstGoodDraw(draws, nAnswers).Some?
      ensures found ==> (fresh(answers) && question.Some? &&
                FirstGoodDraw(draws, nAnswers) == Some((Enabled(answers[..]), question.value)))
      ensures !found ==> answers == old(answers) && question.None?
    {
      allCountries := Some(countries);
      found := ResetGame(draws);
    }

    /** Cross off the guessed country and clear every incorrect mark, in place. */
    method MarkCorrectGuess(id: string)
      modifies answers
      ensures answers[..] == MapCorrect(old(answers[..]), id)
    {
      for i := 0 to answers.Length
        invariant forall k :: 0 <= k < i ==> answers[k] == AfterCorrect(old(answers[k]), id)
        invariant forall k :: i <= k < answers.Length ==> answers[k] == old(answers[k])
      {
        var a := answers[i];
        if a.country.id == id {
          a := a.(disabled := true);
        }
        a := a.(incorrectGuess := false);
        answers[i] := a;
      }
    }

    /** Mark the guessed country incorrect, in place. */
    method MarkWrongGuess(id: string)
      modifies answers
      ensures answers[..] == MapWrong(old(answers[..]), id)
    {
      for i := 0 to answers.Length
        invariant forall k :: 0 <= k < i ==> answers[k] == AfterWrong(old(answers[k]), id)
        invariant forall k :: i <= k < answers.Length ==> answers[k] == old(answers[k])
      {
        if answers[i].country.id == id {
          answers[i] := answers[i].(incorrectGuess := true);
        }
      }
    }

    /**
     * A correct guess: score a point, cross the country off and ask a new
     * question about the rest, or, when at most one remains or none of
     * them yields a question, go up a level with a pool one larger (at
     * most 12), three attempts and a new round.
     */
    method CorrectGuess(id: string, order: seq<Metric>, draws: seq<Draw>)
      requires Valid() && question.Some? && !revealed && id == question.value.correctAnswer.id
      requires IsShuffle(order)
      requires allCountries.Some? ==> DrawsFrom(draws, allCountries.value)
      modifies this, answers
      ensures Valid() && allCountries == old(allCountries)
      ensures score == old(score) + 1 && leaderboard == old(leaderboard)
      ensures !revealed && restartPending == old(restartPending)
      ensures var marked := MapCorrect(old(answers[..]), id);
              var next := SelectQuestion(Enabled(marked), order);
              if |Enabled(marked)| > 1 && next.Some? then
                answers == old(answers) && answers[..] == marked && question == next &&
                level == old(level) && attempts == old(attempts) && nAnswers == old(nAnswers)
              else
                level == old(level) + 1 && attempts == FullAttempts &&
                nAnswers == (if old(nAnswers) + 1 < MaxPoolSize then old(nAnswers) + 1 else MaxPoolSize) &&
                match FirstGoodDraw(draws, nAnswers)
                case Some(round) =>
                  fresh(answers) && NewRoundOf(answers[..], round.0) && question == Some(round.1)
                case None =>
                  answers == old(answers) && answers[..] == marked && question.None?
    {
      ghost var marked := MapCorrect(answers[..], id);
      score := score + 1;
      MarkCorrectGuess(id);
      var enabled := Enabled(answers[..]);
      var next := GenerateRandomQuestion(enabled, order);
      if |enabled| > 1 && next.Some? {
        SelectedFits(answers[..], order);
        question := next;
      } else {
        assert !(|Enabled(marked)| > 1 && SelectQuestion(Enabled(marked), order).Some?);
        question := None;
        LevelUp(draws);
      }
    }

    /**
     * Go up a level: three attempts, a pool one larger (at most 12) and a
     * new round on it.
     */
    method LevelUp(draws: seq<Draw>)
      requires Valid()
      requires allCountries.Some? ==> DrawsFrom(draws, allCountries.value)
      modifies this
      ensures Valid() && !revealed
      ensures score == old(score) && leaderboard == old(leaderboard) && restartPending == old(restartPending)
      ensures allCountries == old(allCountries)
      ensures level == old(level) + 1 && attempts == FullAttempts
      ensures nAnswers == if old(nAnswers) + 1 < MaxPoolSize then old(nAnswers) + 1 else MaxPoolSize
      ensures match FirstGoodDraw(draws, nAnswers)
              case Some(round) =>
                allCountries.Some? ==>
                  fresh(answers) && NewRoundOf(answers[..], round.0) && question == Some(round.1)
              case None => answers == old(answers) && question == (if allCountries.Some? then None else old(question))
    {
      level := level + 1;
      attempts := FullAttempts;
      nAnswers := if nAnswers + 1 < MaxPoolSize then nAnswers + 1 else MaxPoolSize;
      var found := ResetGame(draws);
    }

    /**
     * A wrong guess: lose a point, mark the country and lose an attempt;
     * on the last attempt the game ends: the answer is revealed, the
     * score is recorded and reset, and the restart timer is armed.
     */
    method WrongGuess(id: string)
      requires Valid() && question.Some? && !revealed && id != question.value.correctAnswer.id
      modifies this, answers
      ensures Valid()
      ensures answers == old(answers) && answers[..] == MapWrong(old(answers[..]), id)
      ensures question == old(question) && nAnswers == old(nAnswers) && allCountries == old(allCountries)
      ensures |old(attempts)| > 1 ==>
                score == old(score) - 1 && level == old(level) &&
                attempts == old(attempts)[..|old(attempts)| - 1] &&
                !revealed && restartPending == old(restartPending) && leaderboard == old(leaderboard)
      ensures |old(attempts)| == 1 ==>
                revealed && restartPending && attempts == old(attempts) &&
                leaderboard == old(leaderboard) + [ScoreEntry(old(score) - 1, old(level))] &&
                score == 0 && level == 1
    {
      score := score - 1;
      MarkWrongGuess(id);
      EnabledAfterWrong(old(answers[..]), id);
      if |attempts| > 1 {
        attempts := attempts[..|attempts| - 1];
      } else {
        revealed := true;
        restartPending := true;
        leaderboard := leaderboard + [ScoreEntry(score, level)];
        score, level := 0, 1;
      }
    }

    /**
     * The guess effect: ignored without a question or while the answer
     * is revealed, otherwise a correct or a wrong guess.
     */
    method Guess(id: string, order: seq<Metric>, draws: seq<Draw>)
      requires Valid()
      requires IsShuffle(order)
      requires allCountries.Some? ==> DrawsFrom(draws, allCountries.value)
      modifies this, answers
      ensures Valid()
      ensures old(question.None? || revealed) ==> unchanged(this) && answers[..] == old(answers[..])
      ensures old(question.Some? && !revealed) && id == old(question.value.correctAnswer.id) ==>
                score == old(score) + 1 && !revealed && leaderboard == old(leaderboard) &&
                (level == old(level) || (level == old(level) + 1 && attempts == FullAttempts))
      ensures old(question.Some? && !revealed) && id != old(question.value.correctAnswer.id) ==>
                answers == old(answers) && answers[..] == MapWrong(old(answers[..]), id) &&
                question == old(question) &&
                if |old(attempts)| > 1 then
                  score == old(score) - 1 && attempts == old(attempts)[..|old(attempts)| - 1] &&
                  !revealed && leaderboard == old(leaderboard)
                else
                  revealed && restartPending && score == 0 && level == 1 &&
                  leaderboard == old(leaderboard) + [ScoreEntry(old(score) - 1, old(level))]
    {
      if question.None? || revealed {
        return;
      }
      if id == question.value.correctAnswer.id {
        CorrectGuess(id, order, draws);
      } else {
        WrongGuess(id);
      }
    }

    /**
     * The revealed timer firing: three attempts, a pool of four, and a new
     * round.
     */
    method DelayElapsed(draws: seq<Draw>) returns (found: bool)
      requires Valid()
      requires allCountries.Some? ==> DrawsFrom(draws, allCountries.value)
      modifies this
      ensures Valid()
      ensures score == old(score) && level == old(level) && leaderboard == old(leaderboard)
      ensures allCountries == old(allCountries)
      ensures !old(restartPending) ==> unchanged(this) && !found
      ensures old(restartPending) ==>
                !restartPending && !revealed && attempts == FullAttempts && nAnswers == StartPoolSize &&
                (found <==> allCountries.Some? && FirstGoodDraw(draws, StartPoolSize).Some?) &&
                (found ==> (fresh(answers) && question.Some? &&
                   FirstGoodDraw(draws, StartPoolSize) == Some((Enabled(answers[..]), question.value)))) &&
                (!found ==> answers == old(answers))
    {
      if !restartPending {
        return false;
      }
      restartPending := false;
      attempts := FullAttempts;
      nAnswers := StartPoolSize;
      found := ResetGame(draws);
    }
  }
}
