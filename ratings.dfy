/**
 * The rating write of `ratings_view` (POST): `update_or_create` on the
 * rating table keyed by (rater, target), then the full recomputation of the
 * target's summary from every rating it currently has.
 */
module Ratings {
  import opened Wrappers
  import opened Models
  import Decimal

  /** The first rating of the pair, if the table holds one. */
  function Lookup(rs: seq<Rating>, rater: Id, target: Id): (found: Option<Rating>)
    ensures found.Some? ==> found.value in rs && SamePair(found.value, rater, target)
    ensures found.None? ==> forall k :: 0 <= k < |rs| ==> !SamePair(rs[k], rater, target)
  {
    if rs == [] then None
    else if SamePair(rs[0], rater, target) then Some(rs[0])
    else Lookup(rs[1..], rater, target)
  }

  /**
   * `update_or_create(rater, target, defaults={score, comment})`: the row of
   * the pair gets the new score and comment and keeps its id and position;
   * without one a new row with the fresh id is appended.
   */
  function Upsert(rs: seq<Rating>, rater: Id, target: Id, score: int, comment: string, freshId: Id): seq<Rating> {
    if rs == [] then [Rating(freshId, rater, target, score, comment)]
    else if SamePair(rs[0], rater, target) then [rs[0].(score := score, comment := comment)] + rs[1..]
    else [rs[0]] + Upsert(rs[1..], rater, target, score, comment, freshId)
  }

  /** The id `update_or_create` returns: that of the existing row, else the fresh one. */
  function UpsertedId(rs: seq<Rating>, rater: Id, target: Id, freshId: Id): Id {
    match Lookup(rs, rater, target)
    case Some(r) => r.id
    case None => freshId
  }

  /** The scores a student has received, in table order. */
  function TargetScores(rs: seq<Rating>, target: Id): seq<int> {
    if rs == [] then []
    else (if rs[0].target == target then [rs[0].score] else []) + TargetScores(rs[1..], target)
  }

  function Sum(s: seq<int>): int {
    if s == [] then 0 else s[0] + Sum(s[1..])
  }

  /**
   * The summary the view writes: `Avg("score")` and `Count("rating_id")` over
   * the target's ratings, the average quantized to hundredths (an average of
   * no rows is NULL and becomes 0).
   */
  function Aggregate(rs: seq<Rating>, target: Id): (s: RatingSummary)
    ensures s.count == |TargetScores(rs, target)|
    ensures s.count == 0 ==> s.avgHundredths == 0
  {
    var scores := TargetScores(rs, target);
    var n := |scores|;
    RatingSummary(if n == 0 then 0 else Decimal.RoundHalfEven(100 * Sum(scores), n), n)
  }

  /**
   * A stored average is within half a hundredth of the exact mean, and on a
   * tie it is the even neighbour.
   */
  lemma AggregateNearMean(rs: seq<Rating>, target: Id)
    requires |TargetScores(rs, target)| > 0
    ensures var avg, n, total := Aggregate(rs, target).avgHundredths, |TargetScores(rs, target)|, 100 * Sum(TargetScores(rs, target));
      && 2 * (total - avg * n) <= n && 2 * (avg * n - total) <= n
      && (2 * (total - avg * n) == n || 2 * (avg * n - total) == n ==> avg % 2 == 0)
  {
  }

  /** The stored average is THE half-even rounding of the mean to hundredths. */
  lemma {:induction false} AggregateIsRoundedMean(rs: seq<Rating>, target: Id, avg: int)
    requires |TargetScores(rs, target)| > 0
    requires var n, total := |TargetScores(rs, target)|, 100 * Sum(TargetScores(rs, target));
      && 2 * (total - avg * n) <= n && 2 * (avg * n - total) <= n
      && (2 * (total - avg * n) == n || 2 * (avg * n - total) == n ==> avg % 2 == 0)
    ensures Aggregate(rs, target).avgHundredths == avg
  {
    var n, total := |TargetScores(rs, target)|, 100 * Sum(TargetScores(rs, target));
    Decimal.RoundHalfEvenUnique(total, n, avg);
  }

  /** The set of raters of a student. */
  function RatersOf(rs: seq<Rating>, target: Id): set<Id> {
    set k | 0 <= k < |rs| && rs[k].target == target :: rs[k].rater
  }

  /** Under unique_rating_per_target, `rating_count` is the number of distinct raters. */
  lemma CountIsDistinctRaters(rs: seq<Rating>, target: Id)
    requires RatingPairsUnique(rs)
    ensures Aggregate(rs, target).count == |RatersOf(rs, target)|
  {
    OneScorePerRater(rs, target);
  }

  /** Each rater contributes one score to a student. */
  lemma {:induction false} OneScorePerRater(rs: seq<Rating>, target: Id)
    requires RatingPairsUnique(rs)
    ensures |TargetScores(rs, target)| == |RatersOf(rs, target)|
  {
    if rs != [] {
      var rest := rs[1..];
      PairsUniqueTail(rs);
      OneScorePerRater(rest, target);
      RatersOfCons(rs, target);
      if rs[0].target == target {
        HeadRaterNotRepeated(rs, target);
      }
    }
  }

  lemma PairsUniqueTail(rs: seq<Rating>)
    requires rs != [] && RatingPairsUnique(rs)
    ensures RatingPairsUnique(rs[1..])
  {
    var rest := rs[1..];
    forall i, j | 0 <= i < j < |rest| ensures !SamePair(rest[j], rest[i].rater, rest[i].target) {
      assert rest[i] == rs[i + 1] && rest[j] == rs[j + 1];
    }
  }

  lemma RatersOfCons(rs: seq<Rating>, target: Id)
    requires rs != []
    ensures RatersOf(rs, target) == (if rs[0].target == target then {rs[0].rater} else {}) + RatersOf(rs[1..], target)
  {
    var rest := rs[1..];
    forall x | x in RatersOf(rs, target) ensures x in (if rs[0].target == target then {rs[0].rater} else {}) + RatersOf(rest, target) {
      var k :| 0 <= k < |rs| && rs[k].target == target && rs[k].rater == x;
      if k > 0 { assert rest[k - 1] == rs[k]; }
    }
    forall x | x in RatersOf(rest, target) ensures x in RatersOf(rs, target) {
      var k :| 0 <= k < |rest| && rest[k].target == target && rest[k].rater == x;
      assert rs[k + 1] == rest[k];
    }
  }

  lemma HeadRaterNotRepeated(rs: seq<Rating>, target: Id)
    requires rs != [] && RatingPairsUnique(rs) && rs[0].target == target
    ensures rs[0].rater !in RatersOf(rs[1..], target)
  {
  }

  /** Scores inside the validators' range give a sum between count and 5 * count. */
  lemma {:induction false} SumWithinBounds(s: seq<int>)
    requires forall k :: 0 <= k < |s| ==> ValidScore(s[k])
    ensures |s| <= Sum(s) <= 5 * |s|
  {
    if s != [] {
      SumWithinBounds(s[1..]);
    }
  }

  lemma {:induction false} TargetScoresFrom(rs: seq<Rating>, target: Id, k: int)
    requires 0 <= k < |TargetScores(rs, target)|
    ensures exists i :: 0 <= i < |rs| && rs[i].target == target && rs[i].score == TargetScores(rs, target)[k]
  {
    var head := if rs[0].target == target then [rs[0].score] else [];
    if k < |head| {
      assert rs[0].score == TargetScores(rs, target)[k];
    } else {
      TargetScoresFrom(rs[1..], target, k - |head|);
      var i :| 0 <= i < |rs[1..]| && rs[1..][i].target == target && rs[1..][i].score == TargetScores(rs[1..], target)[k - |head|];
      assert rs[i + 1] == rs[1..][i];
    }
  }

  /**
   * When every rating of the student carries a validated score the summary
   * lies between 1.00 and 5.00, inside the 0.00 .. 9.99 of the avg_score column.
   */
  lemma SummaryWithinScoreRange(rs: seq<Rating>, target: Id)
    requires forall i :: 0 <= i < |rs| && rs[i].target == target ==> ValidScore(rs[i].score)
    requires Aggregate(rs, target).count > 0
    ensures 100 <= Aggregate(rs, target).avgHundredths <= 500
    ensures AvgColumnAccepts(Aggregate(rs, target).avgHundredths)
  {
    var scores := TargetScores(rs, target);
    forall k | 0 <= k < |scores| ensures ValidScore(scores[k]) {
      TargetScoresFrom(rs, target, k);
    }
    SumWithinBounds(scores);
    Decimal.RoundHalfEvenBetween(100 * Sum(scores), |scores|, 100, 500);
  }

  // ---- The upsert keeps exactly one row per pair ----

  /** After the upsert the pair has exactly one rating, holding the new score and comment. */
  lemma {:induction false} UpsertLeavesOneRating(rs: seq<Rating>, rater: Id, target: Id, score: int, comment: string, freshId: Id)
    requires RatingPairsUnique(rs)
    ensures PairRatings(Upsert(rs, rater, target, score, comment, freshId), rater, target)
      == [Rating(UpsertedId(rs, rater, target, freshId), rater, target, score, comment)]
  {
    if rs == [] {
    } else if SamePair(rs[0], rater, target) {
      NoOtherRatingForPair(rs, rater, target);
      assert Upsert(rs, rater, target, score, comment, freshId)[1..] == rs[1..];
    } else {
      var rest := rs[1..];
      assert RatingPairsUnique(rest) by {
        forall i, j | 0 <= i < j < |rest| ensures !SamePair(rest[j], rest[i].rater, rest[i].target) {
          assert rest[i] == rs[i + 1] && rest[j] == rs[j + 1];
        }
      }
      UpsertLeavesOneRating(rest, rater, target, score, comment, freshId);
      assert Upsert(rs, rater, target, score, comment, freshId)[1..] == Upsert(rest, rater, target, score, comment, freshId);
    }
  }

  /** The ratings of every other pair are untouched. */
  lemma {:induction false} UpsertKeepsOtherPairs(rs: seq<Rating>, rater: Id, target: Id, score: int, comment: string, freshId: Id, a: Id, b: Id)
    requires a != rater || b != target
    ensures PairRatings(Upsert(rs, rater, target, score, comment, freshId), a, b) == PairRatings(rs, a, b)
  {
    var out := Upsert(rs, rater, target, score, comment, freshId);
    if rs == [] {
    } else if SamePair(rs[0], rater, target) {
      assert out[1..] == rs[1..];
    } else {
      UpsertKeepsOtherPairs(rs[1..], rater, target, score, comment, freshId, a, b);
      assert out[1..] == Upsert(rs[1..], rater, target, score, comment, freshId);
    }
  }

  /** No other student's scores change, so no other summary needs rewriting. */
  lemma {:induction false} UpsertKeepsOtherTargets(rs: seq<Rating>, rater: Id, target: Id, score: int, comment: string, freshId: Id, other: Id)
    requires other != target
    ensures TargetScores(Upsert(rs, rater, target, score, comment, freshId), other) == TargetScores(rs, other)
  {
    var out := Upsert(rs, rater, target, score, comment, freshId);
    if rs == [] {
    } else if SamePair(rs[0], rater, target) {
      assert out[1..] == rs[1..];
    } else {
      UpsertKeepsOtherTargets(rs[1..], rater, target, score, comment, freshId, other);
      assert out[1..] == Upsert(rs[1..], rater, target, score, comment, freshId);
    }
  }

  /**
   * The target's rating count grows by one for a new rater and stays the same
   * when a rater resubmits.
   */
  lemma {:induction false} UpsertCount(rs: seq<Rating>, rater: Id, target: Id, score: int, comment: string, freshId: Id)
    ensures |TargetScores(Upsert(rs, rater, target, score, comment, freshId), target)|
      == |TargetScores(rs, target)| + (if Lookup(rs, rater, target).Some? then 0 else 1)
  {
    var out := Upsert(rs, rater, target, score, comment, freshId);
    if rs == [] {
    } else if SamePair(rs[0], rater, target) {
      assert out[1..] == rs[1..];
    } else {
      UpsertCount(rs[1..], rater, target, score, comment, freshId);
      assert out[1..] == Upsert(rs[1..], rater, target, score, comment, freshId);
    }
  }

  /** Submitting the same rating twice leaves the table as after the first submission. */
  lemma {:induction false} UpsertIdempotent(rs: seq<Rating>, rater: Id, target: Id, score: int, comment: string, freshId: Id, laterId: Id)
    ensures var once := Upsert(rs, rater, target, score, comment, freshId);
      Upsert(once, rater, target, score, comment, laterId) == once
  {
    var once := Upsert(rs, rater, target, score, comment, freshId);
    if rs == [] {
      assert once == [Rating(freshId, rater, target, score, comment)];
    } else if SamePair(rs[0], rater, target) {
      assert once[1..] == rs[1..];
    } else {
      UpsertIdempotent(rs[1..], rater, target, score, comment, freshId, laterId);
      assert once[1..] == Upsert(rs[1..], rater, target, score, comment, freshId);
    }
  }

  /** Every row after the upsert is an old row or the pair's row with the new score. */
  lemma {:induction false} UpsertRows(rs: seq<Rating>, rater: Id, target: Id, score: int, comment: string, freshId: Id)
    ensures forall x :: x in Upsert(rs, rater, target, score, comment, freshId) ==>
      x in rs || (SamePair(x, rater, target) && x.score == score)
  {
    var out := Upsert(rs, rater, target, score, comment, freshId);
    if rs != [] && !SamePair(rs[0], rater, target) {
      UpsertRows(rs[1..], rater, target, score, comment, freshId);
      assert out == [rs[0]] + Upsert(rs[1..], rater, target, score, comment, freshId);
      assert rs == [rs[0]] + rs[1..];
    } else if rs != [] {
      assert out == [rs[0].(score := score, comment := comment)] + rs[1..];
      assert rs == [rs[0]] + rs[1..];
    }
  }

  /** The upsert keeps the pair key unique. */
  lemma {:induction false} UpsertKeepsPairsUnique(rs: seq<Rating>, rater: Id, target: Id, score: int, comment: string, freshId: Id)
    requires RatingPairsUnique(rs)
    ensures RatingPairsUnique(Upsert(rs, rater, target, score, comment, freshId))
  {
    var out := Upsert(rs, rater, target, score, comment, freshId);
    if rs == [] {
    } else if SamePair(rs[0], rater, target) {
      forall i, j | 0 <= i < j < |out| ensures !SamePair(out[j], out[i].rater, out[i].target) {
        assert out[j] == rs[j];
        assert i > 0 ==> out[i] == rs[i];
      }
    } else {
      var rest := rs[1..];
      assert RatingPairsUnique(rest) by {
        forall i, j | 0 <= i < j < |rest| ensures !SamePair(rest[j], rest[i].rater, rest[i].target) {
          assert rest[i] == rs[i + 1] && rest[j] == rs[j + 1];
        }
      }
      UpsertKeepsPairsUnique(rest, rater, target, score, comment, freshId);
      UpsertRows(rest, rater, target, score, comment, freshId);
      var tail := Upsert(rest, rater, target, score, comment, freshId);
      assert out == [rs[0]] + tail;
      forall i, j | 0 <= i < j < |out| ensures !SamePair(out[j], out[i].rater, out[i].target) {
        var t := tail[j - 1];
        assert out[j] == t;
        assert t in tail;
        assert t in rest || (SamePair(t, rater, target) && t.score == score);
        if i > 0 {
          assert out[i] == tail[i - 1];
        } else if t in rest {
          var k :| 0 <= k < |rest| && rest[k] == t;
          assert rs[k + 1] == rest[k];
        }
      }
    }
  }

  /** The upsert keeps rating ids unique when the fresh id is unused. */
  lemma {:induction false} UpsertKeepsIdsUnique(rs: seq<Rating>, rater: Id, target: Id, score: int, comment: string, freshId: Id)
    requires RatingIdsUnique(rs)
    requires forall k :: 0 <= k < |rs| ==> rs[k].id != freshId
    ensures RatingIdsUnique(Upsert(rs, rater, target, score, comment, freshId))
    ensures forall k :: 0 <= k < |Upsert(rs, rater, target, score, comment, freshId)| ==>
      Upsert(rs, rater, target, score, comment, freshId)[k].id in IdsOf(rs) + {freshId}
  {
    var out := Upsert(rs, rater, target, score, comment, freshId);
    if rs == [] {
    } else if SamePair(rs[0], rater, target) {
      forall i, j | 0 <= i < j < |out| ensures out[i].id != out[j].id {
        assert out[j] == rs[j];
        assert out[i].id == rs[i].id;
      }
      forall k | 0 <= k < |out| ensures out[k].id in IdsOf(rs) + {freshId} {
        assert out[k].id == rs[k].id;
      }
    } else {
      var rest := rs[1..];
      UpsertKeepsIdsUnique(rest, rater, target, score, comment, freshId);
      var tail := Upsert(rest, rater, target, score, comment, freshId);
      assert out == [rs[0]] + tail;
      forall k | 0 <= k < |tail| ensures tail[k].id != rs[0].id && tail[k].id in IdsOf(rs) + {freshId} {
        assert tail[k].id in IdsOf(rest) + {freshId};
        if tail[k].id in IdsOf(rest) {
          var m :| 0 <= m < |rest| && rest[m].id == tail[k].id;
          assert rs[m + 1] == rest[m];
        }
      }
      forall i, j | 0 <= i < j < |out| ensures out[i].id != out[j].id {
        assert out[j] == tail[j - 1];
        if i > 0 { assert out[i] == tail[i - 1]; }
      }
    }
  }

  function IdsOf(rs: seq<Rating>): set<Id> {
    set k | 0 <= k < |rs| :: rs[k].id
  }

  // ---- The imperative search `update_or_create` starts with ----

  /** The position of the pair's rating, or -1 when the pair has none. */
  method FindRating(rs: seq<Rating>, rater: Id, target: Id) returns (i: int)
    ensures -1 <= i < |rs|
    ensures i == -1 <==> Lookup(rs, rater, target).None?
    ensures i >= 0 ==> SamePair(rs[i], rater, target) && forall k :: 0 <= k < i ==> !SamePair(rs[k], rater, target)
  {
    i := 0;
    while i < |rs|
      invariant 0 <= i <= |rs|
      invariant forall k :: 0 <= k < i ==> !SamePair(rs[k], rater, target)
    {
      if SamePair(rs[i], rater, target) {
        assert Lookup(rs, rater, target).Some?;
        return;
      }
      i := i + 1;
    }
    i := -1;
  }

  /** The upsert updates the first row of the pair in place ... */
  lemma {:induction false} UpsertAtFirstMatch(rs: seq<Rating>, i: int, rater: Id, target: Id, score: int, comment: string, freshId: Id)
    requires 0 <= i < |rs| && SamePair(rs[i], rater, target)
    requires forall k :: 0 <= k < i ==> !SamePair(rs[k], rater, target)
    ensures Upsert(rs, rater, target, score, comment, freshId) == rs[i := rs[i].(score := score, comment := comment)]
    ensures UpsertedId(rs, rater, target, freshId) == rs[i].id
  {
    if i > 0 {
      UpsertAtFirstMatch(rs[1..], i - 1, rater, target, score, comment, freshId);
    }
  }

  /** ... and appends a new row when there is none. */
  lemma {:induction false} UpsertWithoutMatch(rs: seq<Rating>, rater: Id, target: Id, score: int, comment: string, freshId: Id)
    requires forall k :: 0 <= k < |rs| ==> !SamePair(rs[k], rater, target)
    ensures Upsert(rs, rater, target, score, comment, freshId) == rs + [Rating(freshId, rater, target, score, comment)]
    ensures UpsertedId(rs, rater, target, freshId) == freshId
  {
    if rs != [] {
      UpsertWithoutMatch(rs[1..], rater, target, score, comment, freshId);
      assert rs == [rs[0]] + rs[1..];
    }
  }

  /**
   * `update_or_create` as the database runs it: find the pair's row, update
   * it in place, or insert a new row at the end.
   */
  method UpdateOrCreate(rs: seq<Rating>, rater: Id, target: Id, score: int, comment: string, freshId: Id)
    returns (next: seq<Rating>, ratingId: Id)
    ensures next == Upsert(rs, rater, target, score, comment, freshId)
    ensures ratingId == UpsertedId(rs, rater, target, freshId)
    ensures Lookup(next, rater, target) == Some(Rating(ratingId, rater, target, score, comment))
  {
    var i := FindRating(rs, rater, target);
    if i >= 0 {
      UpsertAtFirstMatch(rs, i, rater, target, score, comment, freshId);
      next := rs[i := rs[i].(score := score, comment := comment)];
      ratingId := rs[i].id;
      LookupFirstMatch(next, i, rater, target);
    } else {
      UpsertWithoutMatch(rs, rater, target, score, comment, freshId);
      next := rs + [Rating(freshId, rater, target, score, comment)];
      ratingId := freshId;
      LookupFirstMatch(next, |rs|, rater, target);
    }
  }

  /** The lookup returns the first row of the pair. */
  lemma {:induction false} LookupFirstMatch(rs: seq<Rating>, i: int, rater: Id, target: Id)
    requires 0 <= i < |rs| && SamePair(rs[i], rater, target)
    requires forall k :: 0 <= k < i ==> !SamePair(rs[k], rater, target)
    ensures Lookup(rs, rater, target) == Some(rs[i])
  {
    if i > 0 {
      LookupFirstMatch(rs[1..], i - 1, rater, target);
    }
  }

  /** The worked example, first step: scores 5, 3, 4 from three raters give 4.00 over 3. */
  lemma WorkedExampleThreeRaters()
    ensures Aggregate(ExampleTable(), "t") == RatingSummary(400, 3)
  {
    assert TargetScores(ExampleTable(), "t") == [5, 3, 4];
    Decimal.RoundHalfEvenExact(400, 3);
  }

  /** A fourth rater's 2 gives 3.50 over 4. */
  lemma WorkedExampleNewRater()
    ensures Aggregate(Upsert(ExampleTable(), "d", "t", 2, "", "r4"), "t") == RatingSummary(350, 4)
  {
    var r3 := ExampleTable();
    UpsertWithoutMatch(r3, "d", "t", 2, "", "r4");
    TargetScoresAppend(r3, [Rating("r4", "d", "t", 2, "")], "t");
    assert TargetScores(r3, "t") == [5, 3, 4];
    Decimal.RoundHalfEvenExact(350, 4);
  }

  /** The first rater resubmitting 1 gives 2.50, and the count stays 4. */
  lemma WorkedExampleResubmission()
    ensures Aggregate(Upsert(ExampleTable() + [Rating("r4", "d", "t", 2, "")], "a", "t", 1, "", "r5"), "t")
      == RatingSummary(250, 4)
  {
    var r4 := ExampleTable() + [Rating("r4", "d", "t", 2, "")];
    UpsertAtFirstMatch(r4, 0, "a", "t", 1, "", "r5");
    var r5 := Upsert(r4, "a", "t", 1, "", "r5");
    var tail := [Rating("r2", "b", "t", 3, ""), Rating("r3", "c", "t", 4, ""), Rating("r4", "d", "t", 2, "")];
    assert r5 == [Rating("r1", "a", "t", 1, "")] + tail;
    TargetScoresAppend([Rating("r1", "a", "t", 1, "")], tail, "t");
    assert TargetScores(tail[1..], "t") == [4, 2];
    assert TargetScores(tail, "t") == [3, 4, 2];
    assert TargetScores(r5, "t") == [1, 3, 4, 2];
    assert Sum([1, 3, 4, 2]) == 10;
    Decimal.RoundHalfEvenExact(250, 4);
  }

  /** Ratings of one student by raters "a", "b", "c", as three submissions leave them. */
  function ExampleTable(): (rs: seq<Rating>)
    ensures rs == [Rating("r1", "a", "t", 5, ""), Rating("r2", "b", "t", 3, ""), Rating("r3", "c", "t", 4, "")]
  {
    Upsert(Upsert(Upsert([], "a", "t", 5, "", "r1"), "b", "t", 3, "", "r2"), "c", "t", 4, "", "r3")
  }

  /** The scores of a concatenation are the concatenation of the scores. */
  lemma {:induction false} TargetScoresAppend(a: seq<Rating>, b: seq<Rating>, target: Id)
    ensures TargetScores(a + b, target) == TargetScores(a, target) + TargetScores(b, target)
  {
    if a == [] {
      assert a + b == b;
    } else {
      TargetScoresAppend(a[1..], b, target);
      assert (a + b)[1..] == a[1..] + b;
    }
  }

  /**
   * Half-even, not half-up: any eight ratings of a student summing to 9 have
   * the mean 1.125, exactly halfway between 1.12 and 1.13 and exact in binary
   * too, and are stored as 1.12.
   */
  lemma HalfEvenTie(rs: seq<Rating>, target: Id)
    requires |TargetScores(rs, target)| == 8 && Sum(TargetScores(rs, target)) == 9
    ensures Aggregate(rs, target) == RatingSummary(112, 8)
  {
  }
}
