/** `Reviewer._aggregate_scores` and the guard of `_write_meta_review`:
    each score field of the meta-review becomes the half-to-even rounded
    mean of the reviews' in-range numeric scores for that field. */
module Scores {
  import opened Wrappers
  import opened PyValues

  /** A score field with its inclusive range. */
  datatype ScoreField = ScoreField(name: string, lo: int, hi: int)

  /** The nine score fields, in the order the aggregation visits them. */
  const ScoreFields: seq<ScoreField> := [
    ScoreField("Originality", 1, 4),
    ScoreField("Quality", 1, 4),
    ScoreField("Clarity", 1, 4),
    ScoreField("Significance", 1, 4),
    ScoreField("Soundness", 1, 4),
    ScoreField("Presentation", 1, 4),
    ScoreField("Contribution", 1, 4),
    ScoreField("Overall", 1, 10),
    ScoreField("Confidence", 1, 5)
  ]

  /** A review or meta-review: a JSON dictionary. */
  type Review = map<string, JsonValue>

  /** `score in r and isinstance(r[score], (int, float)) and lo <= r[score] <= hi` */
  predicate HasValidScore(r: Review, f: ScoreField) {
    f.name in r && r[f.name].JNumber? && f.lo as real <= r[f.name].n <= f.hi as real
  }

  /** The valid scores for one field, in review order. */
  function ValidScores(reviews: seq<Review>, f: ScoreField): (r: seq<real>)
    ensures |r| <= |reviews|
    ensures forall i :: 0 <= i < |r| ==> f.lo as real <= r[i] <= f.hi as real
    ensures |r| > 0 <==> exists i :: 0 <= i < |reviews| && HasValidScore(reviews[i], f)
    decreases |reviews|
  {
    if |reviews| == 0 then []
    else
      var rest := ValidScores(reviews[1..], f);
      assert forall i :: 1 <= i < |reviews| ==> reviews[1..][i - 1] == reviews[i];
      if HasValidScore(reviews[0], f) then [reviews[0][f.name].n] + rest else rest
  }

  /** Reference definition: the indices from `from` on whose review holds a
      valid score for `f`, in increasing order. */
  function ValidIndices(reviews: seq<Review>, f: ScoreField, from: nat): (idx: seq<nat>)
    requires from <= |reviews|
    ensures forall k :: 0 <= k < |idx| ==> from <= idx[k] < |reviews| && HasValidScore(reviews[idx[k]], f)
    decreases |reviews| - from
  {
    if from == |reviews| then []
    else
      var rest := ValidIndices(reviews, f, from + 1);
      if HasValidScore(reviews[from], f) then [from] + rest else rest
  }

  predicate Increasing(xs: seq<nat>) {
    forall k, l :: 0 <= k < l < |xs| ==> xs[k] < xs[l]
  }

  /** `idx` holds every index from `from` on whose review is valid for `f`. */
  predicate CoversValid(idx: seq<nat>, reviews: seq<Review>, f: ScoreField, from: nat) {
    forall i :: from <= i < |reviews| && HasValidScore(reviews[i], f) ==> i in idx
  }

  /** The reference holds every index of a valid review, each once, in
      increasing order. */
  lemma {:induction false} ValidIndicesExact(reviews: seq<Review>, f: ScoreField, from: nat)
    requires from <= |reviews|
    ensures var idx := ValidIndices(reviews, f, from);
      && Increasing(idx)
      && CoversValid(idx, reviews, f, from)
    decreases |reviews| - from
  {
    ValidIndicesSorted(reviews, f, from);
    ValidIndicesComplete(reviews, f, from);
  }

  lemma {:induction false} ValidIndicesSorted(reviews: seq<Review>, f: ScoreField, from: nat)
    requires from <= |reviews|
    ensures Increasing(ValidIndices(reviews, f, from))
    decreases |reviews| - from
  {
    if from < |reviews| {
      var rest := ValidIndices(reviews, f, from + 1);
      ValidIndicesSorted(reviews, f, from + 1);
      if HasValidScore(reviews[from], f) {
        var idx := [from] + rest;
        assert ValidIndices(reviews, f, from) == idx;
        forall k, l | 0 <= k < l < |idx| ensures idx[k] < idx[l] {
          assert idx[l] == rest[l - 1] && from + 1 <= rest[l - 1];
          if k > 0 {
            assert idx[k] == rest[k - 1];
          }
        }
      } else {
        assert ValidIndices(reviews, f, from) == rest;
      }
    }
  }

  lemma {:induction false} ValidIndicesComplete(reviews: seq<Review>, f: ScoreField, from: nat)
    requires from <= |reviews|
    ensures CoversValid(ValidIndices(reviews, f, from), reviews, f, from)
    decreases |reviews| - from
  {
    if from < |reviews| {
      var rest := ValidIndices(reviews, f, from + 1);
      ValidIndicesComplete(reviews, f, from + 1);
      if HasValidScore(reviews[from], f) {
        var idx := [from] + rest;
        assert ValidIndices(reviews, f, from) == idx;
        forall i | from <= i < |reviews| && HasValidScore(reviews[i], f) ensures i in idx {
          if i == from {
            assert idx[0] == i;
          } else {
            assert i in rest;
            var k :| 0 <= k < |rest| && rest[k] == i;
            assert idx[k + 1] == i;
          }
        }
      } else {
        assert ValidIndices(reviews, f, from) == rest;
      }
    }
  }

  lemma {:induction false} ValidScoresFrom(reviews: seq<Review>, f: ScoreField, from: nat)
    requires from <= |reviews|
    ensures var idx := ValidIndices(reviews, f, from);
      var vs := ValidScores(reviews[from..], f);
      |vs| == |idx| && forall k :: 0 <= k < |idx| ==> vs[k] == reviews[idx[k]][f.name].n
    decreases |reviews| - from
  {
    if from < |reviews| {
      var rv := reviews[from..];
      var tail := ValidScores(reviews[from + 1..], f);
      var rest := ValidIndices(reviews, f, from + 1);
      ValidScoresFrom(reviews, f, from + 1);
      assert rv[1..] == reviews[from + 1..];
      assert rv[0] == reviews[from];
      if HasValidScore(reviews[from], f) {
        var x := reviews[from][f.name].n;
        assert ValidScores(rv, f) == [x] + tail;
        assert ValidIndices(reviews, f, from) == [from] + rest;
        forall k | 0 < k <= |rest|
          ensures ([x] + tail)[k] == reviews[([from] + rest)[k]][f.name].n
        {
          assert ([x] + tail)[k] == tail[k - 1];
          assert ([from] + rest)[k] == rest[k - 1];
        }
      } else {
        assert ValidScores(rv, f) == tail;
        assert ValidIndices(reviews, f, from) == rest;
      }
    }
  }

  /** The valid scores are exactly the scores of the reviews that hold a
      numeric in-range value for the field, one per such review, in review
      order. */
  lemma ValidScoresExact(reviews: seq<Review>, f: ScoreField)
    ensures var idx := ValidIndices(reviews, f, 0);
      var vs := ValidScores(reviews, f);
      |vs| == |idx| && forall k :: 0 <= k < |idx| ==> vs[k] == reviews[idx[k]][f.name].n
  {
    ValidScoresFrom(reviews, f, 0);
    assert reviews[0..] == reviews;
  }

  function Sum(xs: seq<real>): real
    decreases |xs|
  {
    if |xs| == 0 then 0.0 else xs[0] + Sum(xs[1..])
  }

  /** A sum of values in `[lo, hi]` lies between `|xs| * lo` and `|xs| * hi`. */
  lemma {:induction false} SumBounds(xs: seq<real>, lo: real, hi: real)
    requires forall i :: 0 <= i < |xs| ==> lo <= xs[i] <= hi
    ensures |xs| as real * lo <= Sum(xs) <= |xs| as real * hi
    decreases |xs|
  {
    if |xs| > 0 {
      SumBounds(xs[1..], lo, hi);
      assert (|xs| - 1) as real * lo + lo == |xs| as real * lo;
      assert (|xs| - 1) as real * hi + hi == |xs| as real * hi;
    }
  }

  /** The arithmetic mean, which stays within the values' bounds. */
  function Mean(xs: seq<real>): real
    requires |xs| > 0
  {
    Sum(xs) / |xs| as real
  }

  lemma MeanBounds(xs: seq<real>, lo: real, hi: real)
    requires |xs| > 0
    requires forall i :: 0 <= i < |xs| ==> lo <= xs[i] <= hi
    ensures lo <= Mean(xs) <= hi
  {
    SumBounds(xs, lo, hi);
    var n := |xs| as real;
    assert Mean(xs) * n == Sum(xs);
  }

  /** Python's `round` on a number: the nearest integer, ties to the even one. */
  function RoundHalfEven(x: real): (r: int)
    ensures -0.5 <= r as real - x <= 0.5
    ensures r as real - x == 0.5 || x - r as real == 0.5 ==> r % 2 == 0
  {
    var f := x.Floor;
    var d := x - f as real;
    if d < 0.5 then f
    else if d > 0.5 then f + 1
    else if f % 2 == 0 then f
    else f + 1
  }

  /** Any integer nearer than one half, or at exactly one half and even, is
      the rounded value: the rounding is determined by its contract. */
  lemma RoundUnique(x: real, n: int)
    requires -0.5 < n as real - x < 0.5 || ((n as real - x == 0.5 || x - n as real == 0.5) && n % 2 == 0)
    ensures RoundHalfEven(x) == n
  {
    var r := RoundHalfEven(x);
    assert -1.0 <= r as real - n as real <= 1.0;
  }

  /** Rounding a value within integer bounds stays within them. */
  lemma RoundWithin(x: real, lo: int, hi: int)
    requires lo as real <= x <= hi as real
    ensures lo <= RoundHalfEven(x) <= hi
  {
  }

  /** `int(round(sum(valid) / len(valid)))` for a field with valid scores. */
  function AggregatedValue(reviews: seq<Review>, f: ScoreField): (v: JsonValue)
    requires |ValidScores(reviews, f)| > 0
    ensures v.JNumber? && f.lo as real <= v.n <= f.hi as real
  {
    var scores := ValidScores(reviews, f);
    MeanBounds(scores, f.lo as real, f.hi as real);
    RoundWithin(Mean(scores), f.lo, f.hi);
    JNumber(RoundHalfEven(Mean(scores)) as real)
  }

  predicate NamesDistinct(fields: seq<ScoreField>) {
    forall i, j :: 0 <= i < j < |fields| ==> fields[i].name != fields[j].name
  }

  /** The field named `k`, if any. */
  function FieldNamed(fields: seq<ScoreField>, k: string): (r: Option<ScoreField>)
    ensures r.Some? ==> r.value in fields && r.value.name == k
    ensures r.None? <==> forall j :: 0 <= j < |fields| ==> fields[j].name != k
    decreases |fields|
  {
    if |fields| == 0 then None
    else if fields[0].name == k then Some(fields[0])
    else
      assert forall j :: 1 <= j < |fields| ==> fields[1..][j - 1] == fields[j];
      FieldNamed(fields[1..], k)
  }

  /** With distinct names, looking a field up by its name finds it. */
  lemma {:induction false} FieldNamedFinds(fields: seq<ScoreField>, i: nat)
    requires NamesDistinct(fields) && i < |fields|
    ensures FieldNamed(fields, fields[i].name) == Some(fields[i])
    decreases i
  {
    if i > 0 {
      assert fields[0].name != fields[i].name;
      assert fields[1..][i - 1] == fields[i];
      FieldNamedFinds(fields[1..], i - 1);
    }
  }

  lemma ScoreFieldsDistinct()
    ensures NamesDistinct(ScoreFields)
  {
  }

  /** Whether `k` is a field of `fields` that has a valid score. */
  predicate Aggregates(fields: seq<ScoreField>, reviews: seq<Review>, k: string) {
    var f := FieldNamed(fields, k);
    f.Some? && |ValidScores(reviews, f.value)| > 0
  }

  /** How a lookup in `fields` relates to one in its tail: the head field
      is found by its name, and every other name is looked up in the tail. */
  lemma FieldNamedStep(fields: seq<ScoreField>)
    requires NamesDistinct(fields) && |fields| > 0
    ensures NamesDistinct(fields[1..])
    ensures FieldNamed(fields, fields[0].name) == Some(fields[0])
    ensures FieldNamed(fields[1..], fields[0].name).None?
    ensures forall k :: k != fields[0].name ==> FieldNamed(fields, k) == FieldNamed(fields[1..], k)
  {
    var f := fields[0];
    forall j | 0 <= j < |fields[1..]|
      ensures fields[1..][j].name != f.name
    {
      assert fields[1..][j] == fields[j + 1];
    }
  }

  /** The loop over the score fields, visiting them in order: each field
      with valid scores ends up holding its aggregate, and a key that names
      no field is neither added nor changed. */
  function AggregateFrom(meta: Review, reviews: seq<Review>, fields: seq<ScoreField>): (r: Review)
    requires NamesDistinct(fields)
    ensures forall k :: k in meta ==> k in r
    ensures forall k :: FieldNamed(fields, k).None? ==> (k in r <==> k in meta) && (k in r ==> r[k] == meta[k])
    ensures forall j :: 0 <= j < |fields| && |ValidScores(reviews, fields[j])| > 0 ==>
      fields[j].name in r && r[fields[j].name] == AggregatedValue(reviews, fields[j])
    decreases |fields|
  {
    if |fields| == 0 then meta
    else
      var f := fields[0];
      var m := if |ValidScores(reviews, f)| > 0 then meta[f.name := AggregatedValue(reviews, f)] else meta;
      FieldNamedStep(fields);
      var r := AggregateFrom(m, reviews, fields[1..]);
      forall j | 0 < j < |fields|
        ensures fields[j] == fields[1..][j - 1]
      {
      }
      r
  }

  /** What the loop leaves under one key `k`: the aggregate when `k` is a
      field with valid scores, otherwise the value `meta` had, and `k` is
      present exactly when it was there before or was aggregated. */
  lemma {:induction false} AggregateFromKey(meta: Review, reviews: seq<Review>, fields: seq<ScoreField>, k: string)
    requires NamesDistinct(fields)
    ensures var r := AggregateFrom(meta, reviews, fields);
      && (k in r <==> k in meta || Aggregates(fields, reviews, k))
      && (Aggregates(fields, reviews, k) ==> k in r && r[k] == AggregatedValue(reviews, FieldNamed(fields, k).value))
      && (!Aggregates(fields, reviews, k) && k in meta ==> r[k] == meta[k])
    decreases |fields|
  {
    if |fields| > 0 {
      var f := fields[0];
      var m := if |ValidScores(reviews, f)| > 0 then meta[f.name := AggregatedValue(reviews, f)] else meta;
      FieldNamedStep(fields);
      AggregateFromKey(m, reviews, fields[1..], k);
    }
  }

  /** What aggregating `fields` into `meta` leaves in `r`: a key is present
      exactly when `meta` had it or it names a field with valid scores; such
      a field holds the rounded mean, a number inside the field's range;
      every other key keeps the value `meta` had. */
  ghost predicate AggregatedInto(meta: Review, reviews: seq<Review>, fields: seq<ScoreField>, r: Review) {
    && (forall k :: k in r <==> k in meta || Aggregates(fields, reviews, k))
    && (forall k :: k in r && !Aggregates(fields, reviews, k) ==> r[k] == meta[k])
    && (forall i :: 0 <= i < |fields| && |ValidScores(reviews, fields[i])| > 0 ==>
          var f := fields[i];
          f.name in r && r[f.name] == AggregatedValue(reviews, f)
          && r[f.name].JNumber? && f.lo as real <= r[f.name].n <= f.hi as real)
  }

  /** `_aggregate_scores` over the nine fields. */
  function AggregateScores(meta: Review, reviews: seq<Review>): (r: Review)
    ensures AggregatedInto(meta, reviews, ScoreFields, r)
  {
    ScoreFieldsDistinct();
    AggregateFromSpec(meta, reviews, ScoreFields);
    AggregateFrom(meta, reviews, ScoreFields)
  }

  /** `AggregateFromKey` for every key at once, plus the range of each
      aggregate. */
  lemma AggregateFromSpec(meta: Review, reviews: seq<Review>, fields: seq<ScoreField>)
    requires NamesDistinct(fields)
    ensures AggregatedInto(meta, reviews, fields, AggregateFrom(meta, reviews, fields))
  {
    var r := AggregateFrom(meta, reviews, fields);
    forall k
      ensures k in r <==> k in meta || Aggregates(fields, reviews, k)
      ensures k in r && !Aggregates(fields, reviews, k) ==> r[k] == meta[k]
    {
      AggregateFromKey(meta, reviews, fields, k);
    }
  }

  /** A field nobody scored validly keeps the meta-reviewer's own value. */
  lemma UnscoredFieldKept(meta: Review, reviews: seq<Review>, f: ScoreField)
    requires f in ScoreFields && f.name in meta
    requires forall i :: 0 <= i < |reviews| ==> !HasValidScore(reviews[i], f)
    ensures AggregateScores(meta, reviews)[f.name] == meta[f.name]
  {
    ScoreFieldsDistinct();
    var i :| 0 <= i < |ScoreFields| && ScoreFields[i] == f;
    FieldNamedFinds(ScoreFields, i);
  }

  /** Two in-range "Overall" scores 7 and 8 and an out-of-range 11: the 11
      is ignored and the mean 7.5 rounds to the even 8. */
  lemma OverallExample(meta: Review)
    ensures var reviews := [map["Overall" := JNumber(7.0)], map["Overall" := JNumber(11.0)],
                            map["Overall" := JNumber(8.0)]];
      AggregateScores(meta, reviews)["Overall"] == JNumber(8.0)
  {
    var reviews := [map["Overall" := JNumber(7.0)], map["Overall" := JNumber(11.0)],
                    map["Overall" := JNumber(8.0)]];
    var f := ScoreFields[7];
    assert ValidScores(reviews, f) == [7.0, 8.0];
    assert Mean([7.0, 8.0]) == 7.5;
    RoundUnique(7.5, 8);
  }

  /** `_write_meta_review`: no reviews raises `ValueError`; a meta-review the
      model's reply did not contain gives `{}`; otherwise the aggregate. */
  function WriteMetaReview(reviews: seq<Review>, llmMeta: Option<Review>): (r: Result<Review, Exception>)
    ensures |reviews| == 0 <==> r == Failure(ValueError)
    ensures |reviews| > 0 && llmMeta.None? ==> r == Success(map[])
    ensures |reviews| > 0 && llmMeta.Some? ==> r == Success(AggregateScores(llmMeta.value, reviews))
  {
    if |reviews| == 0 then Failure(ValueError)
    else if llmMeta.None? then Success(map[])
    else Success(AggregateScores(llmMeta.value, reviews))
  }
}
