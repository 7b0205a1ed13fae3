/**
 * The eighteen question reducers of the Superlatives game and the fold
 * that runs one of them over a pool of candidate countries
 * (src/components/Superlatives.jsx, `allQuestions` and the
 * `answers.reduce(..., {top: answers[0], invalid: false, tie: false})`
 * calls of `generateRandomQuestion`).
 */
module Reducers {
  import opened Wrappers
  import opened Countries

  /** The reducer accumulator: the best country so far and two flags. */
  datatype Acc = Acc(top: Country, invalid: bool, tie: bool)

  /** The fold's seed: the first candidate, with both flags clear. */
  function Seed(first: Country): Acc {
    Acc(first, false, false)
  }

  /**
   * One reducer step of metric `m` on candidate `c`. Missing capital
   * coordinates (on either side) set `invalid`; a strictly better
   * candidate becomes `top` and clears `tie`; an equal one sets `tie`; a
   * worse one changes nothing. The farthest-west reducer alone also
   * clears `invalid` when it finds a strictly better candidate (it
   * returns `{top, invalid: false}`, and the `tie` it omits reads as
   * false).
   */
  function Step(m: Metric, acc: Acc, c: Country): (r: Acc)
    ensures r.top == acc.top || r.top == c
    ensures Key(m.attribute, acc.top).None? || Key(m.attribute, c).None? ==>
              r == acc.(invalid := true)
    ensures Key(m.attribute, acc.top).Some? && Key(m.attribute, c).Some? ==>
              var kt, kc := Key(m.attribute, acc.top).value, Key(m.attribute, c).value;
              (Better(m.direction, kc, kt) ==> r == Acc(c, acc.invalid && m != West, false)) &&
              (kc == kt ==> r == acc.(tie := true)) &&
              (Better(m.direction, kt, kc) ==> r == acc)
  {
    var kt, kc := Key(m.attribute, acc.top), Key(m.attribute, c);
    if kt.None? || kc.None? then
      acc.(invalid := true)
    else if Better(m.direction, kc.value, kt.value) then
      Acc(c, if m == West then false else acc.invalid, false)
    else if kc.value == kt.value then
      acc.(tie := true)
    else
      acc
  }

  /** Left fold of `Step` over `cs` (JavaScript's `Array.prototype.reduce`). */
  function Reduce(m: Metric, seed: Acc, cs: seq<Country>): (r: Acc)
    ensures r.top == seed.top || r.top in cs
    decreases |cs|
  {
    if cs == [] then seed
    else Step(m, Reduce(m, seed, cs[..|cs| - 1]), cs[|cs| - 1])
  }

  /** The result `generateRandomQuestion` computes for metric `m` over `pool`. */
  function Resolve(m: Metric, pool: seq<Country>): (r: Acc)
    requires |pool| > 0
    ensures r.top in pool
  {
    Reduce(m, Seed(pool[0]), pool)
  }

  /** The fold over `pool` ends neither invalid nor tied. */
  predicate Accepted(m: Metric, pool: seq<Country>) {
    |pool| > 0 && !Resolve(m, pool).invalid && !Resolve(m, pool).tie
  }

  /**
   * What the fold guarantees after its first `n` steps: `top` was seen;
   * a top without data is the first candidate and the fold is invalid;
   * outside the west metric, a valid fold has seen data for everyone;
   * no seen candidate is strictly better than `top`; and when no tie is
   * pending, `top` sits at an index other than 0 and is strictly better
   * than every other seen candidate that has data.
   */
  ghost predicate FoldInv(m: Metric, pool: seq<Country>, n: nat, acc: Acc)
    requires 1 <= n <= |pool|
  {
    var a, d := m.attribute, m.direction;
    acc.top in pool[..n] &&
    (Key(a, pool[0]).None? ==> acc.top == pool[0]) &&
    (Key(a, acc.top).None? ==> acc.invalid) &&
    (m != West && !acc.invalid ==> forall i :: 0 <= i < n ==> Key(a, pool[i]).Some?) &&
    (Key(a, acc.top).Some? ==>
       forall i :: 0 <= i < n && Key(a, pool[i]).Some? ==>
         !Better(d, Key(a, pool[i]).value, Key(a, acc.top).value)) &&
    (Key(a, acc.top).Some? && !acc.tie ==>
       exists k :: 1 <= k < n && pool[k] == acc.top && StrictlyBest(m, pool[..n], k))
  }

  /** `cs[k]` has data and beats every other element of `cs` that has data. */
  ghost predicate StrictlyBest(m: Metric, cs: seq<Country>, k: nat)
    requires k < |cs|
  {
    Key(m.attribute, cs[k]).Some? &&
    forall i :: 0 <= i < |cs| && i != k && Key(m.attribute, cs[i]).Some? ==>
      Better(m.direction, Key(m.attribute, cs[k]).value, Key(m.attribute, cs[i]).value)
  }

  lemma FoldInvFirst(m: Metric, pool: seq<Country>)
    requires |pool| > 0
    ensures FoldInv(m, pool, 1, Step(m, Seed(pool[0]), pool[0]))
  {
  }

  lemma {:induction false} FoldInvStep(m: Metric, pool: seq<Country>, n: nat, acc: Acc)
    requires 1 <= n < |pool|
    requires FoldInv(m, pool, n, acc)
    ensures FoldInv(m, pool, n + 1, Step(m, acc, pool[n]))
  {
    var a, d := m.attribute, m.direction;
    var kt, kc := Key(a, acc.top), Key(a, pool[n]);
    assert pool[..n + 1] == pool[..n] + [pool[n]];
    if kt.None? || kc.None? {
      FoldInvMissing(m, pool, n, acc);
    } else if Better(d, kc.value, kt.value) {
      assert StrictlyBest(m, pool[..n + 1], n);
    } else {
      FoldInvNotBetter(m, pool, n, acc);
    }
  }

  /** A step where a key is missing marks the fold invalid and keeps the invariant. */
  lemma FoldInvMissing(m: Metric, pool: seq<Country>, n: nat, acc: Acc)
    requires 1 <= n < |pool| && FoldInv(m, pool, n, acc)
    requires Key(m.attribute, acc.top).None? || Key(m.attribute, pool[n]).None?
    requires pool[..n + 1] == pool[..n] + [pool[n]]
    ensures FoldInv(m, pool, n + 1, Step(m, acc, pool[n]))
  {
    if Key(m.attribute, acc.top).Some? && !acc.tie {
      var k :| 1 <= k < n && pool[k] == acc.top && StrictlyBest(m, pool[..n], k);
      assert StrictlyBest(m, pool[..n + 1], k);
    }
  }

  /** A step with an equal or worse candidate keeps `top` and the invariant. */
  lemma FoldInvNotBetter(m: Metric, pool: seq<Country>, n: nat, acc: Acc)
    requires 1 <= n < |pool| && FoldInv(m, pool, n, acc)
    requires Key(m.attribute, acc.top).Some? && Key(m.attribute, pool[n]).Some?
    requires !Better(m.direction, Key(m.attribute, pool[n]).value, Key(m.attribute, acc.top).value)
    requires pool[..n + 1] == pool[..n] + [pool[n]]
    ensures FoldInv(m, pool, n + 1, Step(m, acc, pool[n]))
  {
    var r := Step(m, acc, pool[n]);
    if !r.tie {
      var k :| 1 <= k < n && pool[k] == acc.top && StrictlyBest(m, pool[..n], k);
      assert StrictlyBest(m, pool[..n + 1], k);
    }
  }

  lemma {:induction false} FoldInvHolds(m: Metric, pool: seq<Country>, n: nat)
    requires 1 <= n <= |pool|
    ensures FoldInv(m, pool, n, Reduce(m, Seed(pool[0]), pool[..n]))
  {
    assert pool[..n][..n - 1] == pool[..n - 1];
    if n == 1 {
      assert pool[..1][..0] == [];
      FoldInvFirst(m, pool);
    } else {
      FoldInvHolds(m, pool, n - 1);
      FoldInvStep(m, pool, n - 1, Reduce(m, Seed(pool[0]), pool[..n - 1]));
    }
  }

  /**
   * An accepted fold names a candidate at an index other than 0 that has
   * data and is strictly better than every other candidate with data;
   * the first candidate has data; and, for every metric but farthest
   * west, every candidate has data.
   */
  lemma AcceptedIsUniqueExtremum(m: Metric, pool: seq<Country>)
    requires Accepted(m, pool)
    ensures exists k :: 1 <= k < |pool| && pool[k] == Resolve(m, pool).top && StrictlyBest(m, pool, k)
    ensures Key(m.attribute, pool[0]).Some?
    ensures m != West ==> forall i :: 0 <= i < |pool| ==> Key(m.attribute, pool[i]).Some?
  {
    FoldInvHolds(m, pool, |pool|);
    assert pool[..|pool|] == pool;
  }

  /**
   * The first candidate is never the answer of an accepted fold: some
   * later candidate is strictly better than it.
   */
  lemma FirstCandidateNeverWins(m: Metric, pool: seq<Country>)
    requires Accepted(m, pool)
    ensures Resolve(m, pool).top != pool[0]
    ensures |pool| >= 2
    ensures exists k :: 1 <= k < |pool| && BeatsFirst(m, pool, k)
  {
    AcceptedIsUniqueExtremum(m, pool);
    var k :| 1 <= k < |pool| && pool[k] == Resolve(m, pool).top && StrictlyBest(m, pool, k);
    assert BeatsFirst(m, pool, k);
  }

  /** `pool[k]` is strictly better than the first candidate, both having data. */
  ghost predicate BeatsFirst(m: Metric, pool: seq<Country>, k: nat)
    requires 0 < k < |pool|
  {
    Key(m.attribute, pool[k]).Some? && Key(m.attribute, pool[0]).Some? &&
    Better(m.direction, Key(m.attribute, pool[k]).value, Key(m.attribute, pool[0]).value)
  }

  /**
   * A metric whose extremum is shared by the first candidate (nobody is
   * strictly better than it) is never accepted.
   */
  lemma ExtremumAtFirstRejected(m: Metric, pool: seq<Country>)
    requires |pool| > 0
    requires forall i :: 0 <= i < |pool| && Key(m.attribute, pool[i]).Some? && Key(m.attribute, pool[0]).Some? ==>
               !Better(m.direction, Key(m.attribute, pool[i]).value, Key(m.attribute, pool[0]).value)
    ensures !Accepted(m, pool)
  {
    assert forall k :: 0 < k < |pool| ==> !BeatsFirst(m, pool, k);
    if Accepted(m, pool) {
      FirstCandidateNeverWins(m, pool);
    }
  }

  /**
   * The north, south and east metrics (and every non-coordinate metric)
   * accept a pool only when every candidate has capital coordinates or
   * the metric does not use them.
   */
  lemma AcceptedNeedsCoordinates(m: Metric, pool: seq<Country>)
    requires Accepted(m, pool)
    requires m.attribute in {Latitude, Longitude} && m != West
    ensures forall i :: 0 <= i < |pool| ==> pool[i].latlng.Some?
  {
    AcceptedIsUniqueExtremum(m, pool);
  }

  /**
   * Metrics that do not read the capital coordinates never set
   * `invalid`: a missing border list counts as zero borders.
   */
  lemma {:induction false} NonCoordinateNeverInvalid(m: Metric, seed: Acc, cs: seq<Country>)
    requires m.attribute !in {Latitude, Longitude}
    requires !seed.invalid
    ensures !Reduce(m, seed, cs).invalid
    decreases |cs|
  {
    if cs != [] {
      NonCoordinateNeverInvalid(m, seed, cs[..|cs| - 1]);
    }
  }

  /** A country with a capital at `lng` degrees of longitude and otherwise unremarkable data. */
  function Capital(id: string, lng: Option<real>): Country {
    Country(id, "Republic", if lng.Some? then Some((0.0, lng.value)) else None,
            1.0, 1, map[], None, ["UTC"])
  }

  /**
   * The west reducer's asymmetry: a pool whose second country has no
   * capital coordinates is accepted by "farthest west" (the later,
   * strictly more western capital clears `invalid`) but rejected by
   * "farthest east".
   */
  lemma WestForgivesMissingCoordinates()
    ensures var pool := [Capital("a", Some(10.0)), Capital("b", None), Capital("c", Some(-5.0))];
            Accepted(West, pool) && Resolve(West, pool).top == pool[2] &&
            !Accepted(Metric(Longitude, Most), pool)
  {
    var pool := [Capital("a", Some(10.0)), Capital("b", None), Capital("c", Some(-5.0))];
    assert pool[..2][..1] == pool[..1] && pool[..1][..0] == [];
    assert pool[..3][..2] == pool[..2];
    assert pool[..3] == pool;
    var east := Metric(Longitude, Most);
    assert Key(Longitude, pool[0]) == Some(10.0);
    assert Reduce(West, Seed(pool[0]), pool[..1][..0]) == Seed(pool[0]);
    var w1 := Reduce(West, Seed(pool[0]), pool[..1]);
    assert w1 == Step(West, Seed(pool[0]), pool[0]);
    assert w1 == Acc(pool[0], false, true);
    var w2 := Reduce(West, Seed(pool[0]), pool[..2]);
    assert w2 == Acc(pool[0], true, true);
    assert Reduce(West, Seed(pool[0]), pool[..3]) == Acc(pool[2], false, false);
    assert Reduce(east, Seed(pool[0]), pool[..1][..0]) == Seed(pool[0]);
    var e1 := Reduce(east, Seed(pool[0]), pool[..1]);
    assert e1 == Step(east, Seed(pool[0]), pool[0]);
    assert e1 == Acc(pool[0], false, true);
    var e2 := Reduce(east, Seed(pool[0]), pool[..2]);
    assert e2 == Acc(pool[0], true, true);
    assert Reduce(east, Seed(pool[0]), pool[..3]).invalid;
  }

  /** A pool whose candidates agree on every attribute has no acceptable metric. */
  lemma UniformPoolRejected(m: Metric, pool: seq<Country>)
    requires |pool| > 0
    requires forall i, a :: 0 <= i < |pool| ==> Key(a, pool[i]) == Key(a, pool[0])
    ensures !Accepted(m, pool)
  {
    ExtremumAtFirstRejected(m, pool);
  }
}
