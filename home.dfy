/**
 * The leaderboards of the home page (src/components/Home.jsx,
 * `HomePage`): the trivia scores split by difficulty and ranked by
 * score per question, the Superlatives scores ranked by score then
 * level, each cut to its top entries, and the buttons that clear them.
 */
module Leaderboard {
  import opened Wrappers
  import opened Trivia
  import opened Superlatives

  /**
   * The rank of an entry: a primary value and a tie-breaker, both
   * compared highest first.
   */
  type Rank = (real, int)

  /** `x` ranks at least as high as `y`. */
  predicate AtLeast(x: Rank, y: Rank) {
    x.0 > y.0 || (x.0 == y.0 && x.1 >= y.1)
  }

  /** `x` ranks strictly higher than `y`. */
  predicate Above(x: Rank, y: Rank) {
    !AtLeast(y, x)
  }

  /** `s` runs from the highest rank to the lowest. */
  ghost predicate Ranked<T>(s: seq<T>, rank: T -> Rank) {
    forall i, j :: 0 <= i < j < |s| ==> AtLeast(rank(s[i]), rank(s[j]))
  }

  /** A Superlatives entry ranks by score, then by level. */
  function SuperlativesRank(e: ScoreEntry): Rank {
    (e.score as real, e.level)
  }

  /** `a.score / a.questions`, for the entries the trivia page records (at least one question). */
  function Ratio(e: TriviaEntry): real {
    if e.questions > 0 then e.score as real / e.questions as real else 0.0
  }

  /** A trivia entry ranks by score per question, then by number of questions. */
  function TriviaRank(e: TriviaEntry): Rank {
    (Ratio(e), e.questions)
  }

  /**
   * The comparator `sortSuperlativesScores` passes to `sort`: negative
   * when `a` goes first, positive when `b` does.
   */
  function CompareSuperlatives(a: ScoreEntry, b: ScoreEntry): (c: int)
    ensures c < 0 <==> Above(SuperlativesRank(a), SuperlativesRank(b))
    ensures c > 0 <==> Above(SuperlativesRank(b), SuperlativesRank(a))
  {
    if a.score > b.score then -1
    else if a.score < b.score then 1
    else b.level - a.level
  }

  /** The comparator `sortTriviaScores` passes to `sort`. */
  function CompareTrivia(a: TriviaEntry, b: TriviaEntry): (c: int)
    ensures c < 0 <==> Above(TriviaRank(a), TriviaRank(b))
    ensures c > 0 <==> Above(TriviaRank(b), TriviaRank(a))
  {
    var aScorePerQuestion := Ratio(a);
    var bScorePerQuestion := Ratio(b);
    if aScorePerQuestion > bScorePerQuestion then -1
    else if aScorePerQuestion < bScorePerQuestion then 1
    else b.questions - a.questions
  }

  /**
   * With question counts positive, comparing scores per question is
   * comparing the cross products, so no division is needed.
   */
  lemma RatioCrossMultiplied(a: TriviaEntry, b: TriviaEntry)
    requires a.questions > 0 && b.questions > 0
    ensures Ratio(a) > Ratio(b) <==> a.score * b.questions > b.score * a.questions
    ensures Ratio(a) == Ratio(b) <==> a.score * b.questions == b.score * a.questions
  {
    var qa, qb := a.questions as real, b.questions as real;
    var ra, rb := Ratio(a), Ratio(b);
    assert ra * qa == a.score as real;
    assert rb * qb == b.score as real;
    assert (a.score * b.questions) as real == ra * (qa * qb);
    assert (b.score * a.questions) as real == rb * (qa * qb);
    assert qa * qb > 0.0;
  }

  /**
   * `Array.prototype.sort` with a comparator that ranks entries: the
   * array is left in rank order and holds the same entries.
   */
  method SortByRank<T>(a: array<T>, rank: T -> Rank)
    modifies a
    ensures Ranked(a[..], rank)
    ensures multiset(a[..]) == multiset(old(a[..]))
  {
    for i := 0 to a.Length
      invariant Ranked(a[..i], rank)
      invariant multiset(a[..]) == multiset(old(a[..]))
    {
      InsertLast(a, i, rank);
    }
    assert a[..a.Length] == a[..];
  }

  /** Move `a[i]` left past the entries it ranks above, so that `a[..i + 1]` is ranked. */
  method InsertLast<T>(a: array<T>, i: nat, rank: T -> Rank)
    requires i < a.Length && Ranked(a[..i], rank)
    modifies a
    ensures Ranked(a[..i + 1], rank)
    ensures multiset(a[..]) == multiset(old(a[..]))
  {
    var j := i;
    while j > 0 && Above(rank(a[j]), rank(a[j - 1]))
      invariant 0 <= j <= i
      invariant multiset(a[..]) == multiset(old(a[..]))
      invariant forall k, l :: 0 <= k < l <= i && k != j && l != j ==> AtLeast(rank(a[k]), rank(a[l]))
      invariant forall l :: j < l <= i ==> AtLeast(rank(a[j]), rank(a[l]))
    {
      Swap(a, j);
      j := j - 1;
    }
  }

  /** Exchange `a[j - 1]` and `a[j]`. */
  method Swap<T>(a: array<T>, j: nat)
    requires 0 < j < a.Length
    modifies a
    ensures a[j - 1] == old(a[j]) && a[j] == old(a[j - 1])
    ensures forall k :: 0 <= k < a.Length && k != j - 1 && k != j ==> a[k] == old(a[k])
    ensures multiset(a[..]) == multiset(old(a[..]))
  {
    a[j - 1], a[j] := a[j], a[j - 1];
  }

  /** The first `n` entries of a ranked list are its best: none left out ranks above one kept. */
  lemma TopIsBest<T>(s: seq<T>, n: nat, rank: T -> Rank)
    requires Ranked(s, rank)
    ensures forall x, y :: x in Take(s, n) && y in s[|Take(s, n)|..] ==> AtLeast(rank(x), rank(y))
  {
    var top := Take(s, n);
    forall x, y | x in top && y in s[|top|..] ensures AtLeast(rank(x), rank(y)) {
      var i :| 0 <= i < |top| && top[i] == x;
      var j :| 0 <= j < |s[|top|..]| && s[|top|..][j] == y;
      assert s[i] == x && s[|top| + j] == y;
    }
  }

  const SuperlativesShown: nat := 30
  const TriviaShown: nat := 10

  /**
   * `sortSuperlativesScores`: sort in place by score, then level, highest
   * first, and keep the first 30.
   */
  method SortSuperlativesScores(a: array<ScoreEntry>) returns (top: seq<ScoreEntry>)
    modifies a
    ensures Ranked(a[..], SuperlativesRank) && multiset(a[..]) == multiset(old(a[..]))
    ensures top == Take(a[..], SuperlativesShown)
    ensures forall i, j :: 0 <= i < j < |top| ==>
              top[i].score > top[j].score || (top[i].score == top[j].score && top[i].level >= top[j].level)
  {
    SortByRank(a, SuperlativesRank);
    top := a[..if a.Length < SuperlativesShown then a.Length else SuperlativesShown];
  }

  /**
   * `sortTriviaScores`: sort in place by score per question, then by
   * number of questions, highest first, and keep the first 10.
   */
  method SortTriviaScores(a: array<TriviaEntry>) returns (top: seq<TriviaEntry>)
    modifies a
    ensures Ranked(a[..], TriviaRank) && multiset(a[..]) == multiset(old(a[..]))
    ensures top == Take(a[..], TriviaShown)
  {
    SortByRank(a, TriviaRank);
    top := a[..if a.Length < TriviaShown then a.Length else TriviaShown];
  }

  /** `scores.filter(score => score.difficulty === d)`. */
  function OfDifficulty(s: seq<TriviaEntry>, d: string): (r: seq<TriviaEntry>)
    ensures forall e :: e in r <==> e in s && e.difficulty == d
  {
    if s == [] then []
    else if s[0].difficulty == d then [s[0]] + OfDifficulty(s[1..], d)
    else OfDifficulty(s[1..], d)
  }

  /** `scores.filter(score => score.difficulty !== d)`. */
  function OtherDifficulties(s: seq<TriviaEntry>, d: string): (r: seq<TriviaEntry>)
    ensures forall e :: e in r <==> e in s && e.difficulty != d
  {
    if s == [] then []
    else if s[0].difficulty != d then [s[0]] + OtherDifficulties(s[1..], d)
    else OtherDifficulties(s[1..], d)
  }

  /** The easy, medium or hard bucket: the filter, or nothing when there is no cookie. */
  function Bucket(board: Option<seq<TriviaEntry>>, d: string): (r: seq<TriviaEntry>)
    ensures board.None? ==> r == []
    ensures board.Some? ==> forall e :: e in r <==> e in board.value && e.difficulty == d
  {
    if board.None? then [] else OfDifficulty(board.value, d)
  }

  /** A bucket holds every entry of its difficulty as many times as the list does, and no other. */
  lemma {:induction false} BucketCounts(s: seq<TriviaEntry>, d: string, e: TriviaEntry)
    ensures multiset(OfDifficulty(s, d))[e] == if e.difficulty == d then multiset(s)[e] else 0
  {
    if s != [] {
      BucketCounts(s[1..], d, e);
      assert s == [s[0]] + s[1..];
    }
  }

  /** The entries of difficulty `d` and the others split the list between them. */
  lemma {:induction false} BucketsPartition(s: seq<TriviaEntry>, d: string)
    ensures multiset(OfDifficulty(s, d)) + multiset(OtherDifficulties(s, d)) == multiset(s)
  {
    if s != [] {
      BucketsPartition(s[1..], d);
      assert s == [s[0]] + s[1..];
    }
  }

  /** Clearing difficulty `d` leaves every other bucket as it was, in the same order. */
  lemma {:induction false} ClearKeepsOtherBuckets(s: seq<TriviaEntry>, d: string, other: string)
    requires other != d
    ensures OfDifficulty(OtherDifficulties(s, d), other) == OfDifficulty(s, other)
  {
    if s != [] {
      ClearKeepsOtherBuckets(s[1..], d, other);
    }
  }

  /** Clearing difficulty `d` empties its bucket. */
  lemma {:induction false} ClearEmptiesBucket(s: seq<TriviaEntry>, d: string)
    ensures OfDifficulty(OtherDifficulties(s, d), d) == []
  {
    if s != [] {
      ClearEmptiesBucket(s[1..], d);
    }
  }

  /** The name `clearLeaderboard` takes for the Superlatives board. */
  const SuperlativesBoard: string := "superlatives"

  /** The two leaderboard cookies the home page reads and clears. */
  class Home {
    var triviaLeaderboard: Option<seq<TriviaEntry>>
    var superlativeLeaderboard: Option<seq<ScoreEntry>>

    constructor (trivia: Option<seq<TriviaEntry>>, superlatives: Option<seq<ScoreEntry>>)
      ensures triviaLeaderboard == trivia && superlativeLeaderboard == superlatives
    {
      triviaLeaderboard := trivia;
      superlativeLeaderboard := superlatives;
    }

    /** The scores listed under a difficulty heading. */
    function Scores(d: Difficulty): (r: seq<TriviaEntry>)
      reads this
      ensures forall e :: e in r ==> e.difficulty == Name(d)
    {
      Bucket(triviaLeaderboard, Name(d))
    }

    /**
     * `clearLeaderboard(board)`: for a difficulty, store the trivia list
     * without that difficulty's entries (an empty list when there was
     * none); for `"superlatives"`, store an empty Superlatives list.
     */
    method ClearLeaderboard(board: string)
      modifies this
      ensures board != SuperlativesBoard ==>
                triviaLeaderboard ==
                  Some(if old(triviaLeaderboard).Some? then OtherDifficulties(old(triviaLeaderboard).value, board) else []) &&
                superlativeLeaderboard == old(superlativeLeaderboard)
      ensures board == SuperlativesBoard ==>
                superlativeLeaderboard == Some([]) && triviaLeaderboard == old(triviaLeaderboard)
    {
      if board != SuperlativesBoard {
        var newLeaderboard := if triviaLeaderboard.Some? then OtherDifficulties(triviaLeaderboard.value, board) else [];
        triviaLeaderboard := Some(newLeaderboard);
      } else {
        superlativeLeaderboard := Some([]);
      }
    }
  }
}
