/**
 * `calculateTriageLevel`: the urgency advice shown above the results.
 */
module Triage {
  import opened Catalog
  import opened Scoring
  import opened JsObject

  /**
   * The accumulator of the severity reduce. It starts as 'Mild' and only
   * ever becomes 'Severe' or 'Moderate', so three values cover it.
   */
  datatype Severity = Mild | Moderate | Severe

  function Rank(s: Severity): nat {
    match s
    case Mild => 0
    case Moderate => 1
    case Severe => 2
  }

  /** How a disease's severity text reads: anything unrecognised counts as Mild. */
  function SeverityOf(text: string): Severity {
    if text == "Severe" then Severe
    else if text == "Moderate" then Moderate
    else Mild
  }

  /** The higher of two severities. */
  function Higher(a: Severity, b: Severity): Severity {
    if Rank(a) >= Rank(b) then a else b
  }

  /** One step of the reduce over the records, exactly as the source writes it. */
  function Step(max: Severity, severity: string): (r: Severity)
    ensures r == Higher(max, SeverityOf(severity))
  {
    if severity == "Severe" then Severe
    else if severity == "Moderate" && max != Severe then Moderate
    else max
  }

  /** The reduce, starting from 'Mild', over `records` in order. */
  function MaxSeverity(records: seq<MatchRecord>): Severity
    decreases |records|
  {
    if records == [] then Mild
    else
      var n := |records| - 1;
      Step(MaxSeverity(records[..n]), records[n].disease.severity)
  }

  /** `s` is the highest severity among the records, or Mild when there is none. */
  ghost predicate IsHighest(records: seq<MatchRecord>, s: Severity) {
    && (forall i :: 0 <= i < |records| ==> Rank(SeverityOf(records[i].disease.severity)) <= Rank(s))
    && (s == Mild || exists i :: 0 <= i < |records| && SeverityOf(records[i].disease.severity) == s)
  }

  /** The reduce computes the highest severity: it never lowers its accumulator. */
  lemma {:induction false} MaxSeverityIsHighest(records: seq<MatchRecord>)
    ensures IsHighest(records, MaxSeverity(records))
    decreases |records|
  {
    if records != [] {
      var n := |records| - 1;
      var prefix := records[..n];
      MaxSeverityIsHighest(prefix);
      var acc := MaxSeverity(prefix);
      assert forall i :: 0 <= i < n ==> records[i] == prefix[i];
      if acc != Mild && MaxSeverity(records) == acc {
        var i :| 0 <= i < n && SeverityOf(prefix[i].disease.severity) == acc;
        assert SeverityOf(records[i].disease.severity) == acc;
      }
    }
  }

  /** At most one severity is the highest. */
  lemma HighestUnique(records: seq<MatchRecord>, s: Severity, t: Severity)
    requires IsHighest(records, s) && IsHighest(records, t)
    ensures s == t
  {
    if s != Mild {
      var i :| 0 <= i < |records| && SeverityOf(records[i].disease.severity) == s;
    }
    if t != Mild {
      var i :| 0 <= i < |records| && SeverityOf(records[i].disease.severity) == t;
    }
  }

  /** The reduce does not depend on the order of the records. */
  lemma MaxSeverityOrderFree(a: seq<MatchRecord>, b: seq<MatchRecord>)
    requires multiset(a) == multiset(b)
    ensures MaxSeverity(a) == MaxSeverity(b)
  {
    MaxSeverityIsHighest(a);
    MaxSeverityIsHighest(b);
    var s := MaxSeverity(a);
    forall i | 0 <= i < |b|
      ensures Rank(SeverityOf(b[i].disease.severity)) <= Rank(s)
    {
      assert b[i] in multiset(a);
    }
    if s != Mild {
      var i :| 0 <= i < |a| && SeverityOf(a[i].disease.severity) == s;
      assert a[i] in multiset(b);
    }
    HighestUnique(b, s, MaxSeverity(b));
  }

  /** `CRITICAL_SYMPTOMS`: symptom id -> name. */
  const CriticalSymptoms: map<int, string> := map[
    8 := "Chest Pain", 10 := "Shortness of Breath", 17 := "Dizziness", 18 := "Blurred Vision",
    30 := "Confusion", 37 := "Bleeding", 83 := "Seizures", 89 := "Fainting"
  ]

  /** `selectedSymptomIds.some(id => id in CRITICAL_SYMPTOMS)`. */
  function HasCritical(sel: seq<int>): (b: bool)
    ensures b <==> exists i :: 0 <= i < |sel| && sel[i] in CriticalSymptoms
  {
    if sel == [] then false
    else if sel[0] in CriticalSymptoms then true
    else
      assert forall i :: 1 <= i < |sel| ==> sel[i] == sel[1..][i - 1];
      HasCritical(sel[1..])
  }

  datatype Level = Urgent | High | Low

  /** The object `calculateTriageLevel` returns. */
  datatype Advice = Advice(level: string, color: string, icon: string, message: string)

  function AdviceFor(l: Level): Advice {
    match l
    case Urgent => Advice("URGENT", "urgent", "\U{1F6A8}",
      "URGENT: Critical symptoms detected. Please seek immediate medical attention or call emergency services.")
    case High => Advice("HIGH", "high", "⚠️",
      "HIGH PRIORITY: Schedule a medical appointment soon to discuss these symptoms.")
    case Low => Advice("LOW", "low", "ℹ️",
      "LOW PRIORITY: Your symptoms appear mild. Monitor your condition and consult a doctor if symptoms persist.")
  }

  /** The level `calculateTriageLevel(scores, sel)` picks. */
  function TriageLevel(scores: Scores, sel: seq<int>): Level {
    var max := MaxSeverity(Values(OwnEntries(scores, IntIndex)));
    if HasCritical(sel) || max == Severe then Urgent
    else if max == Moderate then High
    else Low
  }

  function CalculateTriage(scores: Scores, sel: seq<int>): Advice {
    AdviceFor(TriageLevel(scores, sel))
  }

  /** Some scored disease reads as severity `s`. */
  ghost predicate AnyWith(scores: Scores, s: Severity) {
    exists k :: 0 <= k < |scores| && SeverityOf(scores[k].1.disease.severity) == s
  }

  /** The reduce over any enumeration of `scores` finds the highest severity among them. */
  lemma HighestOfEnumeration(scores: Scores, es: Scores)
    requires multiset(es) == multiset(scores)
    ensures IsHighest(Values(scores), MaxSeverity(Values(es)))
  {
    var vs := Values(es);
    MaxSeverityIsHighest(vs);
    var s := MaxSeverity(vs);
    forall k | 0 <= k < |scores|
      ensures Rank(SeverityOf(Values(scores)[k].disease.severity)) <= Rank(s)
    {
      assert scores[k] in multiset(es);
      var j :| 0 <= j < |es| && es[j] == scores[k];
      assert vs[j] == scores[k].1;
    }
    if s != Mild {
      var j :| 0 <= j < |vs| && SeverityOf(vs[j].disease.severity) == s;
      assert es[j] in multiset(scores);
      var k :| 0 <= k < |scores| && scores[k] == es[j];
      assert Values(scores)[k] == vs[j];
    }
  }

  /** What the reduce over an enumeration of `scores` yields, in terms of the severities present. */
  lemma EnumerationMeaning(scores: Scores, es: Scores)
    requires multiset(es) == multiset(scores)
    ensures var max := MaxSeverity(Values(es));
      && (max == Severe <==> AnyWith(scores, Severe))
      && (max == Moderate <==> !AnyWith(scores, Severe) && AnyWith(scores, Moderate))
  {
    HighestOfEnumeration(scores, es);
    var vs := Values(scores);
    var max := MaxSeverity(Values(es));
    assert forall k :: 0 <= k < |scores| ==> vs[k] == scores[k].1;
    if max != Mild {
      var j :| 0 <= j < |vs| && SeverityOf(vs[j].disease.severity) == max;
      assert SeverityOf(scores[j].1.disease.severity) == max;
    }
  }

  /**
   * URGENT exactly when a critical symptom is selected or some scored
   * disease is 'Severe'; otherwise HIGH exactly when some scored disease is
   * 'Moderate'; otherwise LOW.
   */
  lemma TriageLevelSpec(scores: Scores, sel: seq<int>)
    ensures TriageLevel(scores, sel) == Urgent <==>
            (exists i :: 0 <= i < |sel| && sel[i] in CriticalSymptoms) || AnyWith(scores, Severe)
    ensures TriageLevel(scores, sel) == High <==>
            !(exists i :: 0 <= i < |sel| && sel[i] in CriticalSymptoms) && !AnyWith(scores, Severe) &&
            AnyWith(scores, Moderate)
  {
    EnumerationMeaning(scores, OwnEntries(scores, IntIndex));
  }
}
