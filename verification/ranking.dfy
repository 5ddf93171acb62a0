/**
 * `analyzeSymptoms` and the non-HTML part of `displayResults`: score every
 * disease, rank the records by score, keep the best 15, and pick the triage
 * advice from all of them.
 */
module Ranking {
  import opened Wrappers
  import opened Catalog
  import opened Scoring
  import opened Triage
  import opened JsObject
  import opened StableSort

  /** `.slice(0, 15)`. */
  const MaxResults: nat := 15

  function ByScore(r: MatchRecord): real {
    r.score
  }

  /** `Object.values(scores)`. */
  function Enumerate(scores: Scores): seq<MatchRecord> {
    Values(OwnEntries(scores, IntIndex))
  }

  /** `Object.values(scores).sort((a, b) => b.score - a.score)`. */
  function Sorted(scores: Scores): seq<MatchRecord> {
    SortDesc(Enumerate(scores), ByScore)
  }

  function Min(a: nat, b: nat): nat {
    if a <= b then a else b
  }

  /**
   * The ranked list `displayResults` shows: the records from best score to
   * worst, at most 15 of them.
   */
  function Rank(scores: Scores): (ranked: seq<MatchRecord>)
    ensures |ranked| == Min(|scores|, MaxResults)
    ensures NonIncreasing(ranked, ByScore)
    ensures multiset(ranked) <= multiset(Values(scores))
  {
    var sorted := Sorted(scores);
    SortedFromScores(scores);
    SortDescNonIncreasing(Enumerate(scores), ByScore);
    PrefixOfSorted(sorted, ByScore, Min(|sorted|, MaxResults));
    sorted[..Min(|sorted|, MaxResults)]
  }

  /** The sorted list is a reordering of the records in `scores`. */
  lemma SortedFromScores(scores: Scores)
    ensures multiset(Sorted(scores)) == multiset(Values(scores))
  {
    ValuesPermutation(OwnEntries(scores, IntIndex), scores);
  }

  /**
   * The cut keeps the best: a record that scores strictly higher than the
   * last one shown is shown, and with at most 15 records all are shown.
   */
  lemma RankKeepsBest(scores: Scores, k: nat)
    requires k < |scores|
    ensures var ranked := Rank(scores);
      |scores| <= MaxResults || scores[k].1.score > ranked[|ranked| - 1].score ==> scores[k].1 in ranked
  {
    var sorted := Sorted(scores);
    var ranked := Rank(scores);
    SortedFromScores(scores);
    SortDescNonIncreasing(Enumerate(scores), ByScore);
    assert ranked == sorted[..|ranked|];
    if |scores| <= MaxResults || scores[k].1.score > ranked[|ranked| - 1].score {
      CutOfRecords(Values(scores), sorted, ranked, k);
    }
  }

  /** The same cut, for any reordering of the records sorted by score. */
  lemma CutOfRecords(records: seq<MatchRecord>, sorted: seq<MatchRecord>, ranked: seq<MatchRecord>, k: nat)
    requires NonIncreasing(sorted, ByScore) && multiset(sorted) == multiset(records)
    requires 0 < |ranked| <= |sorted| && ranked == sorted[..|ranked|] && k < |records|
    requires |ranked| == |sorted| || records[k].score > ranked[|ranked| - 1].score
    ensures records[k] in ranked
  {
    var x := records[k];
    assert x in multiset(sorted);
    CutKeepsBest(sorted, ByScore, |ranked|, x);
  }

  function DiseaseId(r: MatchRecord): int {
    r.disease.id
  }

  /** Every record sits under its own disease id, and every id is an array index. */
  ghost predicate KeyedByIndex(scores: Scores) {
    && UniqueKeys(scores)
    && forall k :: 0 <= k < |scores| ==> scores[k].1.disease.id == scores[k].0 && IntIndex(scores[k].0).Some?
  }

  /** `Object.values(scores)` lists the records by ascending disease id. */
  lemma EnumerationAscending(scores: Scores)
    requires KeyedByIndex(scores)
    ensures Ascending(Enumerate(scores), DiseaseId)
  {
    var es := OwnEntries(scores, IntIndex);
    var vs := Values(es);
    OwnEntriesKeysAscending(scores);
    forall i, j | 0 <= i < j < |vs|
      ensures DiseaseId(vs[i]) < DiseaseId(vs[j])
    {
      EntryKeyedById(scores, es, i);
      EntryKeyedById(scores, es, j);
    }
  }

  lemma EntryKeyedById(scores: Scores, es: Scores, i: nat)
    requires KeyedByIndex(scores) && multiset(es) == multiset(scores) && i < |es|
    ensures es[i].1.disease.id == es[i].0
  {
    assert es[i] in multiset(scores);
    var k :| 0 <= k < |scores| && scores[k] == es[i];
  }

  /**
   * Ties are broken by disease id: records with equal scores are shown in
   * ascending id order, because enumeration yields the integer keys in
   * ascending order and the sort is stable.
   */
  lemma RankTiesById(scores: Scores, i: nat, j: nat)
    requires KeyedByIndex(scores)
    requires i < j < |Rank(scores)| && Rank(scores)[i].score == Rank(scores)[j].score
    ensures Rank(scores)[i].disease.id < Rank(scores)[j].disease.id
  {
    var sorted := Sorted(scores);
    assert Rank(scores)[i] == sorted[i] && Rank(scores)[j] == sorted[j];
    SortDescStable(Enumerate(scores), ByScore);
    EnumerationAscending(scores);
    TiesAscending(sorted, Enumerate(scores), ByScore, DiseaseId, i, j);
  }

  /** Scores computed from diseases whose ids are array indices are keyed that way. */
  lemma ScoreAllKeyedByIndex(diseases: seq<Disease>, m: Mapping, sel: seq<int>)
    requires forall i :: 0 <= i < |diseases| ==> 0 <= diseases[i].id < 0xFFFF_FFFF
    ensures KeyedByIndex(ScoreAll(diseases, m, sel))
  {
    var scores := ScoreAll(diseases, m, sel);
    ScoreAllUnique(diseases, m, sel);
    forall k | 0 <= k < |scores|
      ensures IntIndex(scores[k].0).Some?
    {
      var id := scores[k].0;
      assert Keys(scores)[k] == id;
      ScoreAllKeys(diseases, m, sel, id);
    }
  }

  /**
   * On the analyze screen, results with equal scores appear in ascending
   * disease id order, for catalogs whose ids are array indices.
   */
  lemma AnalyzeTiesById(diseases: seq<Disease>, m: Mapping, sel: seq<int>, i: nat, j: nat)
    requires forall k :: 0 <= k < |diseases| ==> 0 <= diseases[k].id < 0xFFFF_FFFF
    requires Analyze(diseases, m, sel).Results?
    requires var ranked := Analyze(diseases, m, sel).ranked;
      i < j < |ranked| && ranked[i].score == ranked[j].score
    ensures var ranked := Analyze(diseases, m, sel).ranked;
      ranked[i].disease.id < ranked[j].disease.id
  {
    var scores := ScoreAll(diseases, m, sel);
    ScoreAllKeyedByIndex(diseases, m, sel);
    assert Analyze(diseases, m, sel).ranked == Rank(scores);
    RankTiesById(scores, i, j);
  }

  /** The result of pressing "analyze". */
  datatype Outcome =
    | NoSelection                                    // the "select at least one symptom" alert
    | NoMatches                                      // the "No Matches" panel
    | Results(ranked: seq<MatchRecord>, advice: Advice)

  /** `displayResults(scores)` without the markup. */
  function DisplayResults(scores: Scores, sel: seq<int>): Outcome {
    var ranked := Rank(scores);
    if |ranked| == 0 then NoMatches else Results(ranked, CalculateTriage(scores, sel))
  }

  /** `analyzeSymptoms()` over the loaded catalogs and the current selection. */
  function Analyze(diseases: seq<Disease>, m: Mapping, sel: seq<int>): Outcome {
    if |sel| == 0 then NoSelection else DisplayResults(ScoreAll(diseases, m, sel), sel)
  }

  /** `scores` has an entry exactly when some disease has a matching selected symptom. */
  lemma ScoredIffMatch(diseases: seq<Disease>, m: Mapping, sel: seq<int>)
    ensures ScoreAll(diseases, m, sel) != [] <==>
            exists i :: 0 <= i < |diseases| && ScoreDisease(m, diseases[i], sel).Some?
  {
    var scores := ScoreAll(diseases, m, sel);
    if i :| 0 <= i < |diseases| && ScoreDisease(m, diseases[i], sel).Some? {
      ScoreAllKeys(diseases, m, sel, diseases[i].id);
    }
    if scores != [] {
      assert Keys(scores)[0] == scores[0].0;
      ScoreAllKeys(diseases, m, sel, scores[0].0);
    }
  }

  /**
   * An empty selection stops before scoring; otherwise there are results
   * exactly when some disease has a matching selected symptom, and then at
   * most 15 of them, best first.
   */
  lemma AnalyzeOutcome(diseases: seq<Disease>, m: Mapping, sel: seq<int>)
    ensures Analyze(diseases, m, sel).NoSelection? <==> sel == []
    ensures Analyze(diseases, m, sel).Results? <==>
            sel != [] && exists i :: 0 <= i < |diseases| && ScoreDisease(m, diseases[i], sel).Some?
    ensures Analyze(diseases, m, sel).Results? ==>
            var ranked := Analyze(diseases, m, sel).ranked;
            0 < |ranked| <= MaxResults && NonIncreasing(ranked, ByScore)
  {
    if sel != [] {
      ScoredIffMatch(diseases, m, sel);
      DisplayResultsShape(ScoreAll(diseases, m, sel), sel);
    }
  }

  /** There are results exactly when something scored, and then at most 15, best first. */
  lemma DisplayResultsShape(scores: Scores, sel: seq<int>)
    ensures DisplayResults(scores, sel).Results? <==> scores != []
    ensures DisplayResults(scores, sel).Results? ==>
            var ranked := DisplayResults(scores, sel).ranked;
            0 < |ranked| <= MaxResults && NonIncreasing(ranked, ByScore)
  {
    var ranked := Rank(scores);
    assert |ranked| == 0 <==> scores == [];
  }

  /**
   * The advice is computed from every record, not only the 15 shown: a
   * 'Severe' disease ranked below the cut still makes it URGENT.
   */
  lemma TriageSeesAllScores(scores: Scores, sel: seq<int>, k: nat)
    requires k < |scores| && scores[k].1.disease.severity == "Severe"
    ensures DisplayResults(scores, sel).Results?
    ensures DisplayResults(scores, sel).advice == AdviceFor(Urgent)
  {
    assert |Rank(scores)| > 0;
    assert SeverityOf(scores[k].1.disease.severity) == Severe;
    assert AnyWith(scores, Severe);
    TriageLevelSpec(scores, sel);
    assert TriageLevel(scores, sel) == Urgent;
  }
}
