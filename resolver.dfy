/**
 * `generateRandomQuestion` of src/components/Superlatives.jsx: scan the
 * shuffled catalogue for the first metric whose fold over the candidate
 * pool is neither invalid nor tied. The shuffle is a parameter: `order`
 * is any permutation of the catalogue.
 */
module Resolver {
  import opened Wrappers
  import opened Countries
  import opened Reducers

  /** A generated question: its metric and the country that answers it. */
  datatype Question = Question(metric: Metric, correctAnswer: Country)

  /**
   * `order` is a shuffle of the whole catalogue: as long as it, and
   * holding every metric (the catalogue's entries being distinct, this
   * makes it a permutation).
   */
  predicate IsShuffle(order: seq<Metric>) {
    |order| == |AllMetrics| && forall m :: m in AllMetrics ==> m in order
  }

  /**
   * The question of the first metric of `order` that the pool accepts,
   * or None when no metric of `order` is acceptable.
   */
  function FirstAcceptable(pool: seq<Country>, order: seq<Metric>): (r: Option<Question>)
    ensures r.None? <==> forall m :: m in order ==> !Accepted(m, pool)
    ensures r.Some? ==>
              r.value.metric in order && Accepted(r.value.metric, pool) &&
              r.value.correctAnswer == Resolve(r.value.metric, pool).top
  {
    if order == [] then None
    else if Accepted(order[0], pool) then
      Some(Question(order[0], Resolve(order[0], pool).top))
    else
      assert forall m :: m in order ==> m == order[0] || m in order[1..];
      FirstAcceptable(pool, order[1..])
  }

  /** The metric `FirstAcceptable` picks comes after only unacceptable ones. */
  lemma {:induction false} FirstAcceptableIsFirst(pool: seq<Country>, order: seq<Metric>)
    requires FirstAcceptable(pool, order).Some?
    ensures exists i :: 0 <= i < |order| && order[i] == FirstAcceptable(pool, order).value.metric &&
              forall j :: 0 <= j < i ==> !Accepted(order[j], pool)
  {
    if !Accepted(order[0], pool) {
      var r := FirstAcceptable(pool, order[1..]);
      FirstAcceptableIsFirst(pool, order[1..]);
      var i :| 0 <= i < |order[1..]| && order[1..][i] == r.value.metric &&
               forall j :: 0 <= j < i ==> !Accepted(order[1..][j], pool);
      assert order[i + 1] == r.value.metric;
      forall j | 0 <= j < i + 1 ensures !Accepted(order[j], pool) {
        if j > 0 { assert order[j] == order[1..][j - 1]; }
      }
    }
  }

  /**
   * What `generateRandomQuestion(answers)` returns for catalogue order
   * `order`: nothing for fewer than two candidates, otherwise the first
   * acceptable metric's question.
   */
  function SelectQuestion(pool: seq<Country>, order: seq<Metric>): (r: Option<Question>)
    ensures |pool| < 2 ==> r.None?
  {
    if |pool| < 2 then None else FirstAcceptable(pool, order)
  }

  /**
   * Whether a question exists does not depend on the shuffle: for every
   * shuffle of the catalogue, there is none exactly when the pool has
   * fewer than two candidates or no metric at all is acceptable.
   */
  lemma NoQuestionIffNoAcceptableMetric(pool: seq<Country>, order: seq<Metric>)
    requires IsShuffle(order)
    ensures SelectQuestion(pool, order).None? <==>
              |pool| < 2 || forall m: Metric :: !Accepted(m, pool)
  {
    forall m: Metric ensures m in order {
      CatalogueComplete(m);
    }
  }

  /** The source's shuffle of the catalogue is one in the sense of `IsShuffle`. */
  lemma PermutationIsShuffle(order: seq<Metric>)
    requires multiset(order) == multiset(AllMetrics)
    ensures IsShuffle(order)
  {
    assert |order| == |multiset(order)| == |AllMetrics|;
    forall m | m in AllMetrics ensures m in order {
      assert multiset(AllMetrics)[m] > 0;
    }
  }

  /**
   * A generated question answers its metric with the unique strict
   * extremum of the pool, which is never the first candidate.
   */
  lemma QuestionIsUniqueExtremum(pool: seq<Country>, order: seq<Metric>)
    requires SelectQuestion(pool, order).Some?
    ensures var q := SelectQuestion(pool, order).value;
            q.metric in order && q.correctAnswer != pool[0] &&
            exists k :: 1 <= k < |pool| && pool[k] == q.correctAnswer && StrictlyBest(q.metric, pool, k)
  {
    var q := SelectQuestion(pool, order).value;
    AcceptedIsUniqueExtremum(q.metric, pool);
    FirstCandidateNeverWins(q.metric, pool);
  }

  /**
   * The source's scan: fold the first metric, then move on while the
   * result is invalid or tied and metrics remain.
   */
  method GenerateRandomQuestion(pool: seq<Country>, order: seq<Metric>) returns (q: Option<Question>)
    requires IsShuffle(order)
    ensures q == SelectQuestion(pool, order)
  {
    if |pool| < 2 {
      return None;
    }
    var i := 0;
    var correctAnswer := Resolve(order[i], pool);
    while i < |order| - 1 && (correctAnswer.invalid || correctAnswer.tie)
      invariant 0 <= i < |order|
      invariant correctAnswer == Resolve(order[i], pool)
      invariant forall j :: 0 <= j < i ==> !Accepted(order[j], pool)
    {
      i := i + 1;
      correctAnswer := Resolve(order[i], pool);
    }
    if i == |order| - 1 && (correctAnswer.invalid || correctAnswer.tie) {
      assert forall m :: m in order ==> !Accepted(m, pool);
      return None;
    }
    q := Some(Question(order[i], correctAnswer.top));
    var r := FirstAcceptable(pool, order);
    FirstAcceptableIsFirst(pool, order);
    var i' :| 0 <= i' < |order| && order[i'] == r.value.metric &&
              forall j :: 0 <= j < i' ==> !Accepted(order[j], pool);
    assert i' == i;
  }
}
