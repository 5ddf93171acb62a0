/**
 * The three catalogs built from parsed CSV rows: the symptom list, the
 * disease list, and the disease -> symptom -> weight table.
 */
module Catalog {
  import opened Wrappers
  import opened Numbers
  import Csv

  datatype Symptom = Symptom(id: int, name: string, category: string)

  datatype Disease = Disease(id: int, name: string, category: string, severity: string)

  /** The weights of one disease, keyed by symptom id. */
  type Weights = map<int, real>

  /** disease id -> its weights. */
  type Mapping = map<int, Weights>

  /**
   * `item.field` of a parsed row. A column the header line lacks reads as
   * ''; an absent value and '' fail the same tests below.
   */
  function Field(row: Csv.Row, name: string): string {
    if name in row then row[name] else []
  }

  /** The record a symptoms row maps to, or None when the filter drops it. */
  function SymptomOf(row: Csv.Row): Option<Symptom> {
    var id := ParseInt(Field(row, "symptom_id"));
    var name := Field(row, "symptom_name");
    if id.Some? && name != [] then Some(Symptom(id.value, name, Field(row, "category"))) else None
  }

  /** The record a diseases row maps to, or None when the filter drops it. */
  function DiseaseOf(row: Csv.Row): Option<Disease> {
    var id := ParseInt(Field(row, "disease_id"));
    var name := Field(row, "disease_name");
    if id.Some? && name != [] then
      Some(Disease(id.value, name, Field(row, "category"), Field(row, "severity")))
    else None
  }

  /** The present values of `opts`, in order: `map(...).filter(...)`. */
  function Somes<T>(opts: seq<Option<T>>): (r: seq<T>)
    ensures |r| <= |opts|
    ensures forall k :: 0 <= k < |r| ==> exists i :: 0 <= i < |opts| && opts[i] == Some(r[k])
    ensures forall i :: 0 <= i < |opts| && opts[i].Some? ==> opts[i].value in r
  {
    if opts == [] then []
    else
      var tail := Somes(opts[1..]);
      assert forall i :: 1 <= i < |opts| ==> opts[i] == opts[1..][i - 1];
      if opts[0].Some? then [opts[0].value] + tail else tail
  }

  /** `filter` over a concatenation filters each part, keeping their order. */
  lemma {:induction false} SomesAppend<T>(a: seq<Option<T>>, b: seq<Option<T>>)
    ensures Somes(a + b) == Somes(a) + Somes(b)
    decreases |a|
  {
    if a == [] {
      assert a + b == b;
    } else {
      assert (a + b)[1..] == a[1..] + b;
      SomesAppend(a[1..], b);
    }
  }

  /** One option contributes its value, if present. */
  lemma SomesOne<T>(o: Option<T>)
    ensures Somes([o]) == if o.Some? then [o.value] else []
  {
  }

  /** `rows.map(...)` for the symptom file: one optional record per row. */
  function SymptomOpts(rows: seq<Csv.Row>): (opts: seq<Option<Symptom>>)
    ensures |opts| == |rows|
    ensures forall i :: 0 <= i < |rows| ==> opts[i] == SymptomOf(rows[i])
  {
    seq(|rows|, i requires 0 <= i < |rows| => SymptomOf(rows[i]))
  }

  /** `rows.map(...)` for the disease file: one optional record per row. */
  function DiseaseOpts(rows: seq<Csv.Row>): (opts: seq<Option<Disease>>)
    ensures |opts| == |rows|
    ensures forall i :: 0 <= i < |rows| ==> opts[i] == DiseaseOf(rows[i])
  {
    seq(|rows|, i requires 0 <= i < |rows| => DiseaseOf(rows[i]))
  }

  /**
   * The symptom catalog: every row whose id parses and whose name is not
   * empty, in row order.
   */
  function LoadSymptoms(rows: seq<Csv.Row>): (ss: seq<Symptom>)
    ensures |ss| <= |rows|
    ensures forall k :: 0 <= k < |ss| ==>
              exists i :: 0 <= i < |rows| &&
                ParseInt(Field(rows[i], "symptom_id")) == Some(ss[k].id) &&
                ss[k].name == Field(rows[i], "symptom_name") && ss[k].name != [] &&
                ss[k].category == Field(rows[i], "category")
    ensures forall i :: 0 <= i < |rows| ==>
              (ParseInt(Field(rows[i], "symptom_id")).Some? && Field(rows[i], "symptom_name") != [] ==>
                 SymptomOf(rows[i]).value in ss)
  {
    var opts := SymptomOpts(rows);
    var ss := Somes(opts);
    forall k | 0 <= k < |ss|
      ensures exists i :: 0 <= i < |rows| &&
                ParseInt(Field(rows[i], "symptom_id")) == Some(ss[k].id) &&
                ss[k].name == Field(rows[i], "symptom_name") && ss[k].name != [] &&
                ss[k].category == Field(rows[i], "category")
    {
      var i :| 0 <= i < |opts| && opts[i] == Some(ss[k]);
      assert SymptomOf(rows[i]) == Some(ss[k]);
    }
    forall i | 0 <= i < |rows| && ParseInt(Field(rows[i], "symptom_id")).Some? && Field(rows[i], "symptom_name") != []
      ensures SymptomOf(rows[i]).value in ss
    {
      assert opts[i] == SymptomOf(rows[i]);
    }
    ss
  }

  /**
   * The disease catalog: every row whose id parses and whose name is not
   * empty, in row order.
   */
  function LoadDiseases(rows: seq<Csv.Row>): (ds: seq<Disease>)
    ensures |ds| <= |rows|
    ensures forall k :: 0 <= k < |ds| ==>
              exists i :: 0 <= i < |rows| &&
                ParseInt(Field(rows[i], "disease_id")) == Some(ds[k].id) &&
                ds[k].name == Field(rows[i], "disease_name") && ds[k].name != [] &&
                ds[k].category == Field(rows[i], "category") && ds[k].severity == Field(rows[i], "severity")
    ensures forall i :: 0 <= i < |rows| ==>
              (ParseInt(Field(rows[i], "disease_id")).Some? && Field(rows[i], "disease_name") != [] ==>
                 DiseaseOf(rows[i]).value in ds)
  {
    var opts := DiseaseOpts(rows);
    var ds := Somes(opts);
    forall k | 0 <= k < |ds|
      ensures exists i :: 0 <= i < |rows| &&
                ParseInt(Field(rows[i], "disease_id")) == Some(ds[k].id) &&
                ds[k].name == Field(rows[i], "disease_name") && ds[k].name != [] &&
                ds[k].category == Field(rows[i], "category") && ds[k].severity == Field(rows[i], "severity")
    {
      var i :| 0 <= i < |opts| && opts[i] == Some(ds[k]);
      assert DiseaseOf(rows[i]) == Some(ds[k]);
    }
    forall i | 0 <= i < |rows| && ParseInt(Field(rows[i], "disease_id")).Some? && Field(rows[i], "disease_name") != []
      ensures DiseaseOf(rows[i]).value in ds
    {
      assert opts[i] == DiseaseOf(rows[i]);
    }
    ds
  }

  /**
   * The symptom catalog of a concatenation is the two catalogs one after
   * the other: row order and repetitions carry over.
   */
  lemma LoadSymptomsAppend(a: seq<Csv.Row>, b: seq<Csv.Row>)
    ensures LoadSymptoms(a + b) == LoadSymptoms(a) + LoadSymptoms(b)
  {
    SymptomOptsAppend(a, b);
    SomesAppend(SymptomOpts(a), SymptomOpts(b));
  }

  lemma SymptomOptsAppend(a: seq<Csv.Row>, b: seq<Csv.Row>)
    ensures SymptomOpts(a + b) == SymptomOpts(a) + SymptomOpts(b)
  {
    var l := SymptomOpts(a + b);
    var la := SymptomOpts(a);
    var lb := SymptomOpts(b);
    forall i | 0 <= i < |l|
      ensures l[i] == (la + lb)[i]
    {
      if i < |a| {
        assert (a + b)[i] == a[i] && l[i] == la[i];
      } else {
        assert (a + b)[i] == b[i - |a|] && l[i] == lb[i - |a|];
      }
    }
    assert l == la + lb;
  }

  /** One row gives its symptom when it passes the filter, and nothing otherwise. */
  lemma LoadSymptomsOne(row: Csv.Row)
    ensures LoadSymptoms([row]) ==
            if ParseInt(Field(row, "symptom_id")).Some? && Field(row, "symptom_name") != [] then
              [Symptom(ParseInt(Field(row, "symptom_id")).value, Field(row, "symptom_name"), Field(row, "category"))]
            else []
  {
    assert SymptomOpts([row]) == [SymptomOf(row)];
    SomesOne(SymptomOf(row));
  }

  /**
   * The disease catalog of a concatenation is the two catalogs one after
   * the other: row order, and so which of two rows with one id comes last,
   * carries over.
   */
  lemma LoadDiseasesAppend(a: seq<Csv.Row>, b: seq<Csv.Row>)
    ensures LoadDiseases(a + b) == LoadDiseases(a) + LoadDiseases(b)
  {
    DiseaseOptsAppend(a, b);
    SomesAppend(DiseaseOpts(a), DiseaseOpts(b));
  }

  lemma DiseaseOptsAppend(a: seq<Csv.Row>, b: seq<Csv.Row>)
    ensures DiseaseOpts(a + b) == DiseaseOpts(a) + DiseaseOpts(b)
  {
    var l := DiseaseOpts(a + b);
    var la := DiseaseOpts(a);
    var lb := DiseaseOpts(b);
    forall i | 0 <= i < |l|
      ensures l[i] == (la + lb)[i]
    {
      if i < |a| {
        assert (a + b)[i] == a[i] && l[i] == la[i];
      } else {
        assert (a + b)[i] == b[i - |a|] && l[i] == lb[i - |a|];
      }
    }
    assert l == la + lb;
  }

  /** One row gives its disease when it passes the filter, and nothing otherwise. */
  lemma LoadDiseasesOne(row: Csv.Row)
    ensures LoadDiseases([row]) ==
            if ParseInt(Field(row, "disease_id")).Some? && Field(row, "disease_name") != [] then
              [Disease(ParseInt(Field(row, "disease_id")).value, Field(row, "disease_name"),
                       Field(row, "category"), Field(row, "severity"))]
            else []
  {
    assert DiseaseOpts([row]) == [DiseaseOf(row)];
    SomesOne(DiseaseOf(row));
  }

  /** A mapping row once parsed: (disease id, symptom id, weight). */
  type Entry = (int, int, real)

  /** The entry of a mapping row, or None when any of its three numbers fails to parse. */
  function MappingEntry(row: Csv.Row): Option<Entry> {
    var d := ParseInt(Field(row, "disease_id"));
    var s := ParseInt(Field(row, "symptom_id"));
    var w := ParseFloat(Field(row, "weight"));
    if d.None? || s.None? || w.None? then None else Some((d.value, s.value, w.value))
  }

  predicate NamesDisease(e: Option<Entry>, d: int) {
    e.Some? && e.value.0 == d
  }

  predicate NamesPair(e: Option<Entry>, d: int, s: int) {
    e.Some? && e.value.0 == d && e.value.1 == s
  }

  /** `m[d][s] = w`, creating the disease's table on first use. */
  function SetWeight(m: Mapping, d: int, s: int, w: real): Mapping {
    var weights := if d in m then m[d] else map[];
    m[d := weights[s := w]]
  }

  /** The `forEach` over the parsed rows: skip a malformed one, else record its weight. */
  function Fold(es: seq<Option<Entry>>): Mapping
    decreases |es|
  {
    if es == [] then map[]
    else
      var n := |es| - 1;
      var m := Fold(es[..n]);
      match es[n]
      case None => m
      case Some((d, s, w)) => SetWeight(m, d, s, w)
  }

  function Entries(rows: seq<Csv.Row>): (es: seq<Option<Entry>>)
    ensures |es| == |rows|
    ensures forall i :: 0 <= i < |rows| ==> es[i] == MappingEntry(rows[i])
  {
    seq(|rows|, i requires 0 <= i < |rows| => MappingEntry(rows[i]))
  }

  /** The weight table built from the rows of the mapping file. */
  function LoadMapping(rows: seq<Csv.Row>): Mapping {
    Fold(Entries(rows))
  }

  lemma {:induction false} FoldDiseases(es: seq<Option<Entry>>, d: int)
    ensures d in Fold(es) <==> exists i :: 0 <= i < |es| && NamesDisease(es[i], d)
    decreases |es|
  {
    if es != [] {
      var n := |es| - 1;
      var prefix := es[..n];
      FoldDiseases(prefix, d);
      if d in Fold(es) && !NamesDisease(es[n], d) {
        var i :| 0 <= i < n && NamesDisease(prefix[i], d);
        assert es[i] == prefix[i];
      }
      if exists i :: 0 <= i < n && NamesDisease(es[i], d) {
        var i :| 0 <= i < n && NamesDisease(es[i], d);
        assert prefix[i] == es[i];
      }
    }
  }

  lemma {:induction false} FoldPairs(es: seq<Option<Entry>>, d: int, s: int)
    ensures (d in Fold(es) && s in Fold(es)[d]) <==> exists i :: 0 <= i < |es| && NamesPair(es[i], d, s)
    decreases |es|
  {
    if es != [] {
      var n := |es| - 1;
      var prefix := es[..n];
      FoldPairs(prefix, d, s);
      var m := Fold(es);
      if d in m && s in m[d] && !NamesPair(es[n], d, s) {
        var i :| 0 <= i < n && NamesPair(prefix[i], d, s);
        assert es[i] == prefix[i];
      }
      if exists i :: 0 <= i < n && NamesPair(es[i], d, s) {
        var i :| 0 <= i < n && NamesPair(es[i], d, s);
        assert prefix[i] == es[i];
      }
    }
  }

  lemma {:induction false} FoldLastWins(es: seq<Option<Entry>>, d: int, s: int, i: nat)
    requires i < |es| && NamesPair(es[i], d, s)
    requires forall j :: i < j < |es| ==> !NamesPair(es[j], d, s)
    ensures d in Fold(es) && s in Fold(es)[d]
    ensures Fold(es)[d][s] == es[i].value.2
    decreases |es|
  {
    var n := |es| - 1;
    if i < n {
      var prefix := es[..n];
      assert forall j :: i < j < n ==> prefix[j] == es[j];
      assert prefix[i] == es[i];
      FoldLastWins(prefix, d, s, i);
    }
  }

  /** A disease has a weight table exactly when some well-formed row names it. */
  lemma LoadMappingDiseases(rows: seq<Csv.Row>, d: int)
    ensures d in LoadMapping(rows) <==> exists i :: 0 <= i < |rows| && NamesDisease(MappingEntry(rows[i]), d)
  {
    FoldDiseases(Entries(rows), d);
  }

  /** A (disease, symptom) weight is present exactly when some well-formed row names the pair. */
  lemma LoadMappingPairs(rows: seq<Csv.Row>, d: int, s: int)
    ensures (d in LoadMapping(rows) && s in LoadMapping(rows)[d]) <==>
            exists i :: 0 <= i < |rows| && NamesPair(MappingEntry(rows[i]), d, s)
  {
    FoldPairs(Entries(rows), d, s);
  }

  /** The weight of a pair is the one in the last well-formed row that names it. */
  lemma LoadMappingLastWins(rows: seq<Csv.Row>, d: int, s: int, i: nat)
    requires i < |rows| && NamesPair(MappingEntry(rows[i]), d, s)
    requires forall j :: i < j < |rows| ==> !NamesPair(MappingEntry(rows[j]), d, s)
    ensures d in LoadMapping(rows) && s in LoadMapping(rows)[d]
    ensures LoadMapping(rows)[d][s] == MappingEntry(rows[i]).value.2
  {
    FoldLastWins(Entries(rows), d, s, i);
  }

  /** Dropping the malformed rows first gives the same table: they change nothing. */
  lemma {:induction false} MalformedRowsIgnored(es: seq<Option<Entry>>)
    ensures Fold(es) == Fold(WellFormed(es))
    decreases |es|
  {
    if es != [] {
      var n := |es| - 1;
      MalformedRowsIgnored(es[..n]);
      var w := WellFormed(es[..n]);
      if es[n].Some? {
        var w' := w + [es[n]];
        assert WellFormed(es) == w';
        assert w'[..|w|] == w && w'[|w|] == es[n];
      } else {
        assert WellFormed(es) == w + [] == w;
      }
    }
  }

  /** The entries of the rows that parsed, in order. */
  function WellFormed(es: seq<Option<Entry>>): (r: seq<Option<Entry>>)
    ensures forall i :: 0 <= i < |r| ==> r[i].Some?
    decreases |es|
  {
    if es == [] then []
    else
      var n := |es| - 1;
      WellFormed(es[..n]) + (if es[n].Some? then [es[n]] else [])
  }
}
