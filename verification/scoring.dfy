/**
 * Scoring one disease against the selected symptoms, and the `scores`
 * object that the analysis builds over the whole disease catalog.
 */
module Scoring {
  import opened Wrappers
  import opened Catalog
  import opened JsObject

  /** One entry of `scores`: `{ disease, score, matchCount, matchingSymptoms }`. */
  datatype MatchRecord = MatchRecord(disease: Disease, score: real, matchCount: nat, matchingSymptoms: seq<int>)

  /** The `scores` object: disease id -> record, in creation order. */
  type Scores = seq<(int, MatchRecord)>

  /** `diseaseSymptomMapping[id] || {}`. */
  function TableOf(m: Mapping, id: int): Weights {
    if id in m then m[id] else map[]
  }

  /**
   * `if (mapping[symptomId])`: the weight is present and truthy. A number
   * is falsy only when it is 0 (NaN never reaches the table).
   */
  predicate Matches(w: Weights, s: int) {
    s in w && w[s] != 0.0
  }

  /** `totalScore` after visiting `sel` in order. */
  function SumWeights(w: Weights, sel: seq<int>): real
    decreases |sel|
  {
    if sel == [] then 0.0
    else
      var n := |sel| - 1;
      SumWeights(w, sel[..n]) + (if Matches(w, sel[n]) then w[sel[n]] else 0.0)
  }

  /**
   * `matchingSymptoms` after visiting `sel` in order: the selected ids that
   * match, each as often as it was selected.
   */
  function MatchingIds(w: Weights, sel: seq<int>): (ids: seq<int>)
    ensures |ids| <= |sel|
    ensures forall k :: 0 <= k < |ids| ==> Matches(w, ids[k])
    decreases |sel|
  {
    if sel == [] then []
    else
      var n := |sel| - 1;
      MatchingIds(w, sel[..n]) + (if Matches(w, sel[n]) then [sel[n]] else [])
  }

  /**
   * Each id occurs in `matchingSymptoms` as often as it was selected when
   * it matches, and not at all otherwise.
   */
  lemma {:induction false} MatchingIdsCount(w: Weights, sel: seq<int>, x: int)
    ensures multiset(MatchingIds(w, sel))[x] == if Matches(w, x) then multiset(sel)[x] else 0
    decreases |sel|
  {
    if sel != [] {
      var n := |sel| - 1;
      MatchingIdsCount(w, sel[..n], x);
      assert sel == sel[..n] + [sel[n]];
    }
  }

  /** Some selected id matches exactly when `matchingSymptoms` is not empty. */
  lemma {:induction false} MatchingIdsEmpty(w: Weights, sel: seq<int>)
    ensures MatchingIds(w, sel) != [] <==> exists i :: 0 <= i < |sel| && Matches(w, sel[i])
    decreases |sel|
  {
    if sel != [] {
      var n := |sel| - 1;
      var prefix := sel[..n];
      MatchingIdsEmpty(w, prefix);
      if i :| 0 <= i < n && Matches(w, sel[i]) {
        assert prefix[i] == sel[i];
      }
      if i :| 0 <= i < n && Matches(w, prefix[i]) {
        assert prefix[i] == sel[i];
      }
    }
  }

  /**
   * The record for one disease, or None when no selected symptom matches:
   * `scores[id]` is only assigned when `matchCount > 0`.
   */
  function ScoreDisease(m: Mapping, d: Disease, sel: seq<int>): (r: Option<MatchRecord>)
    ensures r.Some? <==> exists i :: 0 <= i < |sel| && Matches(TableOf(m, d.id), sel[i])
    ensures r.Some? ==> r.value.disease == d && r.value.matchCount >= 1 &&
                        r.value.matchCount == |r.value.matchingSymptoms| <= |sel|
  {
    var w := TableOf(m, d.id);
    var ids := MatchingIds(w, sel);
    MatchingIdsEmpty(w, sel);
    if |ids| > 0 then
      Some(MatchRecord(d, SumWeights(w, sel) / |sel| as real * 100.0, |ids|, ids))
    else None
  }

  /** The `forEach` over the selection, as the source writes it. */
  method ScoreDiseaseLoop(m: Mapping, d: Disease, sel: seq<int>) returns (r: Option<MatchRecord>)
    ensures r == ScoreDisease(m, d, sel)
  {
    var w := TableOf(m, d.id);
    var total := 0.0;
    var matchCount := 0;
    var matching := [];
    var i := 0;
    while i < |sel|
      invariant 0 <= i <= |sel|
      invariant total == SumWeights(w, sel[..i])
      invariant matching == MatchingIds(w, sel[..i])
      invariant matchCount == |matching|
    {
      assert sel[..i + 1][..i] == sel[..i];
      if Matches(w, sel[i]) {
        total := total + w[sel[i]];
        matchCount := matchCount + 1;
        matching := matching + [sel[i]];
      }
      i := i + 1;
    }
    assert sel[..i] == sel;
    if matchCount > 0 {
      r := Some(MatchRecord(d, total / |sel| as real * 100.0, matchCount, matching));
    } else {
      r := None;
    }
  }

  /** Only the matching ids contribute to the total. */
  lemma {:induction false} SumOverMatches(w: Weights, sel: seq<int>)
    ensures SumWeights(w, sel) == SumWeights(w, MatchingIds(w, sel))
    decreases |sel|
  {
    if sel != [] {
      var n := |sel| - 1;
      SumOverMatches(w, sel[..n]);
      var ids := MatchingIds(w, sel[..n]);
      if Matches(w, sel[n]) {
        assert (ids + [sel[n]])[..|ids|] == ids;
      } else {
        assert ids + [] == ids;
      }
    }
  }

  /** With weights in [0, 1], the total lies between 0 and the number of matches. */
  lemma {:induction false} SumWeightsBounds(w: Weights, sel: seq<int>)
    requires forall s :: s in w ==> 0.0 <= w[s] <= 1.0
    ensures 0.0 <= SumWeights(w, sel) <= |MatchingIds(w, sel)| as real
    ensures MatchingIds(w, sel) != [] ==> SumWeights(w, sel) > 0.0
    decreases |sel|
  {
    if sel != [] {
      SumWeightsBounds(w, sel[..|sel| - 1]);
    }
  }

  /**
   * With weights in [0, 1] (as the weight column holds), a score is a
   * percentage: above 0, and at most 100 times the matched fraction of the
   * selection.
   */
  lemma ScoreIsPercentage(m: Mapping, d: Disease, sel: seq<int>)
    requires forall s :: s in TableOf(m, d.id) ==> 0.0 <= TableOf(m, d.id)[s] <= 1.0
    requires ScoreDisease(m, d, sel).Some?
    ensures var r := ScoreDisease(m, d, sel).value;
      0.0 < r.score <= 100.0 * r.matchCount as real / |sel| as real <= 100.0
  {
    var w := TableOf(m, d.id);
    var r := ScoreDisease(m, d, sel).value;
    SumWeightsBounds(w, sel);
    var t := SumWeights(w, sel);
    var n := |sel| as real;
    var k := r.matchCount as real;
    assert r.score == t / n * 100.0;
    assert 0.0 < t <= k <= n;
    PercentBounds(t, k, n);
  }

  lemma PercentBounds(t: real, k: real, n: real)
    requires 0.0 < t <= k <= n
    ensures 0.0 < t / n * 100.0 <= 100.0 * k / n <= 100.0
  {
    var q := k / n;
    assert q * n == k;
    assert 100.0 * k / n == 100.0 * q;
    assert t / n <= q;
    assert q <= 1.0;
  }

  /**
   * The denominator is the whole selection: selecting one more symptom that
   * the disease does not list keeps the matches and dilutes the score by
   * n / (n + 1).
   */
  lemma {:induction false} UnmatchedSelectionDilutes(m: Mapping, d: Disease, sel: seq<int>, x: int)
    requires !Matches(TableOf(m, d.id), x)
    requires ScoreDisease(m, d, sel).Some?
    ensures ScoreDisease(m, d, sel + [x]).Some?
    ensures var r, r' := ScoreDisease(m, d, sel).value, ScoreDisease(m, d, sel + [x]).value;
      r'.matchingSymptoms == r.matchingSymptoms &&
      r'.score * (|sel| + 1) as real == r.score * |sel| as real
  {
    var w := TableOf(m, d.id);
    var sel' := sel + [x];
    assert sel'[..|sel|] == sel;
    assert MatchingIds(w, sel') == MatchingIds(w, sel) + [];
    assert SumWeights(w, sel') == SumWeights(w, sel);
    var n := |sel| as real;
    var t := SumWeights(w, sel);
    assert t / (n + 1.0) * 100.0 * (n + 1.0) == t * 100.0;
    assert t / n * 100.0 * n == t * 100.0;
  }

  /** Each disease's result, in catalog order. */
  function Results(diseases: seq<Disease>, m: Mapping, sel: seq<int>): (rs: seq<Option<MatchRecord>>)
    ensures |rs| == |diseases|
    ensures forall i :: 0 <= i < |diseases| ==> rs[i] == ScoreDisease(m, diseases[i], sel)
  {
    seq(|diseases|, i requires 0 <= i < |diseases| => ScoreDisease(m, diseases[i], sel))
  }

  /** `scores[disease.disease_id] = record` for every result that is a record, in order. */
  function Collect(rs: seq<Option<MatchRecord>>): Scores
    decreases |rs|
  {
    if rs == [] then []
    else
      var n := |rs| - 1;
      var scores := Collect(rs[..n]);
      if rs[n].Some? then Put(scores, rs[n].value.disease.id, rs[n].value) else scores
  }

  /** Every entry is one of the records, keyed by its disease's id. */
  lemma {:induction false} CollectEntries(rs: seq<Option<MatchRecord>>)
    ensures forall k :: 0 <= k < |Collect(rs)| ==>
              Collect(rs)[k].1.disease.id == Collect(rs)[k].0 &&
              exists i :: 0 <= i < |rs| && rs[i] == Some(Collect(rs)[k].1)
    decreases |rs|
  {
    if rs != [] {
      var n := |rs| - 1;
      var prefix := rs[..n];
      CollectEntries(prefix);
      var scores := Collect(prefix);
      var r := Collect(rs);
      forall k | 0 <= k < |r|
        ensures r[k].1.disease.id == r[k].0 && exists i :: 0 <= i < |rs| && rs[i] == Some(r[k].1)
      {
        if rs[n].Some? && r[k] == (rs[n].value.disease.id, rs[n].value) {
          assert rs[n] == Some(r[k].1);
        } else {
          var j :| 0 <= j < |scores| && scores[j] == r[k];
          var i :| 0 <= i < n && prefix[i] == Some(scores[j].1);
          assert rs[i] == prefix[i];
        }
      }
    }
  }

  /**
   * The `scores` object after the `forEach` over the diseases: each disease
   * with a match writes its record under its id, so a later disease with
   * the same id and a match replaces an earlier one. Every entry is keyed by
   * its disease's id and has at least one match.
   */
  function ScoreAll(diseases: seq<Disease>, m: Mapping, sel: seq<int>): (scores: Scores)
    ensures forall k :: 0 <= k < |scores| ==>
              scores[k].1.disease.id == scores[k].0 && scores[k].1.matchCount >= 1
  {
    var rs := Results(diseases, m, sel);
    var scores := Collect(rs);
    CollectEntries(rs);
    forall k | 0 <= k < |scores|
      ensures scores[k].1.matchCount >= 1
    {
      var i :| 0 <= i < |rs| && rs[i] == Some(scores[k].1);
    }
    scores
  }

  /** The keys of `scores` are unique. */
  lemma {:induction false} CollectUnique(rs: seq<Option<MatchRecord>>)
    ensures UniqueKeys(Collect(rs))
    decreases |rs|
  {
    if rs != [] {
      var n := |rs| - 1;
      CollectUnique(rs[..n]);
      if rs[n].Some? {
        PutUnique(Collect(rs[..n]), rs[n].value.disease.id, rs[n].value);
      }
    }
  }

  lemma ScoreAllUnique(diseases: seq<Disease>, m: Mapping, sel: seq<int>)
    ensures UniqueKeys(ScoreAll(diseases, m, sel))
  {
    CollectUnique(Results(diseases, m, sel));
  }

  /** Result `i` is a record for `id`. */
  predicate RecordFor(rs: seq<Option<MatchRecord>>, i: int, id: int) {
    0 <= i < |rs| && rs[i].Some? && rs[i].value.disease.id == id
  }

  lemma {:induction false} CollectKeys(rs: seq<Option<MatchRecord>>, id: int)
    ensures Get(Collect(rs), id).Some? <==> exists i :: RecordFor(rs, i, id)
    decreases |rs|
  {
    if rs != [] {
      var n := |rs| - 1;
      var prefix := rs[..n];
      CollectKeys(prefix, id);
      if rs[n].Some? {
        GetAfterPut(Collect(prefix), rs[n].value.disease.id, rs[n].value, id);
      }
      if i :| RecordFor(prefix, i, id) {
        assert RecordFor(rs, i, id);
      }
      if rs[n].Some? && rs[n].value.disease.id == id {
        assert RecordFor(rs, n, id);
      }
      if i :| RecordFor(rs, i, id) && i < n {
        assert RecordFor(prefix, i, id);
      }
    }
  }

  lemma {:induction false} CollectLastWins(rs: seq<Option<MatchRecord>>, id: int, i: nat)
    requires RecordFor(rs, i, id)
    requires forall j :: i < j < |rs| ==> !RecordFor(rs, j, id)
    ensures Get(Collect(rs), id) == rs[i]
    decreases |rs|
  {
    var n := |rs| - 1;
    var prefix := rs[..n];
    assert Collect(rs) == if rs[n].Some? then Put(Collect(prefix), rs[n].value.disease.id, rs[n].value) else Collect(prefix);
    if i == n {
      GetAfterPut(Collect(prefix), id, rs[n].value, id);
    } else {
      assert !RecordFor(rs, n, id);
      forall j | i < j < n
        ensures !RecordFor(prefix, j, id)
      {
        assert prefix[j] == rs[j];
        assert !RecordFor(rs, j, id);
      }
      assert RecordFor(prefix, i, id) by {
        assert prefix[i] == rs[i];
      }
      CollectLastWins(prefix, id, i);
      if rs[n].Some? {
        GetAfterPut(Collect(prefix), rs[n].value.disease.id, rs[n].value, id);
      }
    }
  }

  /** `scores[id]` exists exactly when some disease with that id has a match. */
  lemma ScoreAllKeys(diseases: seq<Disease>, m: Mapping, sel: seq<int>, id: int)
    ensures Get(ScoreAll(diseases, m, sel), id).Some? <==>
            exists i :: 0 <= i < |diseases| && diseases[i].id == id && ScoreDisease(m, diseases[i], sel).Some?
  {
    var rs := Results(diseases, m, sel);
    CollectKeys(rs, id);
    if i :| 0 <= i < |diseases| && diseases[i].id == id && ScoreDisease(m, diseases[i], sel).Some? {
      assert RecordFor(rs, i, id);
    }
  }

  /**
   * `scores[id]` is the record of the last disease with that id that has a
   * match: a later duplicate id overwrites, a later one without a match
   * does not.
   */
  lemma ScoreAllLastWins(diseases: seq<Disease>, m: Mapping, sel: seq<int>, i: nat)
    requires i < |diseases| && ScoreDisease(m, diseases[i], sel).Some?
    requires forall j :: i < j < |diseases| && diseases[j].id == diseases[i].id ==>
               ScoreDisease(m, diseases[j], sel).None?
    ensures Get(ScoreAll(diseases, m, sel), diseases[i].id) == ScoreDisease(m, diseases[i], sel)
  {
    var rs := Results(diseases, m, sel);
    var id := diseases[i].id;
    forall j | i < j < |rs|
      ensures !RecordFor(rs, j, id)
    {
    }
    CollectLastWins(rs, id, i);
  }

  /** With nothing selected, nothing matches and `scores` stays empty. */
  lemma EmptySelectionScoresNothing(diseases: seq<Disease>, m: Mapping)
    ensures ScoreAll(diseases, m, []) == []
  {
    NoRecordsCollectNothing(Results(diseases, m, []));
  }

  lemma {:induction false} NoRecordsCollectNothing(rs: seq<Option<MatchRecord>>)
    requires forall i :: 0 <= i < |rs| ==> rs[i].None?
    ensures Collect(rs) == []
    decreases |rs|
  {
    if rs != [] {
      NoRecordsCollectNothing(rs[..|rs| - 1]);
    }
  }
}
