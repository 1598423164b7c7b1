/** The survey dataset of datasets.py: its metadata, the name mapper it
    carries, the enumeration of slices a survey question is computed over,
    the row selection over precomputed statistics and the dispatch of one
    slice's computation. The storage database is a value passed in; the R
    survey engine appears only as the shape of the request it would get. */
module Datasets {
  import opened Common
  import opened Dicts
  import opened Names

  /** `ColumnFilter`: values of one column, included or excluded. */
  datatype ColumnFilter = ColumnFilter(vals: seq<string>, incl: bool)

  /** The parts a dataset can be hydrated from. */
  datatype Part = Surveys | Socrata

  /** The fields of a dataset's configuration the metadata reads; whether a
      survey part or a precomputed part is configured is a flag here. */
  datatype DatasetConfig = DatasetConfig(
    id: string, strata: seq<string>, facets: seq<string>,
    national: ColumnFilter, surveys: bool, socrata: bool)

  /** `SurveyMeta` without its two metadata frames. */
  datatype SurveyMeta = SurveyMeta(
    dsid: string, strata: seq<string>, facets: seq<string>,
    national: ColumnFilter, parts: seq<Part>)

  /** `SurveyMeta.load_metadata`: the survey part is listed before the
      precomputed part, each only when configured. */
  function LoadMetadata(cfg: DatasetConfig): (m: SurveyMeta)
    ensures m.dsid == cfg.id && m.strata == cfg.strata && m.facets == cfg.facets
    ensures m.national == cfg.national
    ensures HasSurveys(m) <==> cfg.surveys
    ensures HasSocrata(m) <==> cfg.socrata
    ensures Distinct(m.parts)
    ensures |m.parts| == 2 ==> m.parts == [Surveys, Socrata]
  {
    var parts := (if cfg.surveys then [Surveys] else []) + (if cfg.socrata then [Socrata] else []);
    SurveyMeta(cfg.id, cfg.strata, cfg.facets, cfg.national, parts)
  }

  predicate HasSocrata(m: SurveyMeta) { Socrata in m.parts }

  predicate HasSurveys(m: SurveyMeta) { Surveys in m.parts }

  /** `SurveyMeta.vars`: the strata, then the facets. */
  function Vars(m: SurveyMeta): (vs: seq<string>)
    ensures |vs| == |m.strata| + |m.facets|
    ensures vs[..|m.strata|] == m.strata && vs[|m.strata|..] == m.facets
  {
    m.strata + m.facets
  }

  /** The dataset's name mapper: `identity`, or `map_with_dict` over a table. */
  datatype Mapper = Identity | WithDict(table: map<string, string>)

  /** `load_dataset`: the `year` workaround applies only when a database is
      configured and feather files are not requested. */
  function MapperFor(hasDatabase: bool, useFeather: bool): (m: Mapper)
    ensures m == WithDict(YearTable) <==> hasDatabase && !useFeather
    ensures m.Identity? <==> !hasDatabase || useFeather
  {
    if hasDatabase && !useFeather then WithDict(YearTable) else Identity
  }

  /** The mapper applied to a column name. */
  function MapName(m: Mapper, s: string): (r: string)
    ensures m.Identity? ==> r == s
    ensures m.WithDict? ==> MapWithDict<seq<string>>(m.table, Str(s)) == Some(Str(r))
  {
    match m
    case Identity => s
    case WithDict(t) => GetIf(s, t)
  }

  /** The mapper applied to a list of column names. */
  function MapNames(m: Mapper, vs: seq<string>): (r: seq<string>)
    ensures m.Identity? ==> r == vs
    ensures m.WithDict? ==> MapWithDict<seq<string>>(m.table, List(vs)) == Some(List(r))
    ensures |r| == |vs| && forall i :: 0 <= i < |vs| ==> r[i] == MapName(m, vs[i])
  {
    match m
    case Identity => vs
    case WithDict(t) => seq(|vs|, i requires 0 <= i < |vs| => GetIf(vs[i], t))
  }

  /** The mapper applied to a filter's entries. */
  function MapEntries(m: Mapper, d: Dict<string, seq<string>>): (r: Dict<string, seq<string>>)
    ensures m.Identity? ==> r == d
    ensures m.WithDict? ==> MapWithDict(m.table, DictOf(d)) == Some(DictOf(r))
  {
    match m
    case Identity => d
    case WithDict(t) => KeyMap(Rename(t), d)
  }

  /** The mutable filter dict handed to `generate_slices`: column name to
      the values kept. Slices hold a reference to it, not a copy. */
  class FilterDict {
    var entries: Dict<string, seq<string>>

    constructor (d: Dict<string, seq<string>>)
      ensures entries == d
    {
      entries := d;
    }

    /** `filt[k] = v` */
    method Put(k: string, v: seq<string>)
      modifies this
      ensures entries == Assign(old(entries), k, v)
    {
      entries := Assign(entries, k, v);
    }
  }

  /** `mapper(filt)`: the identity hands back the caller's own object,
      `map_with_dict` builds a new one through `keymap`. */
  method MapFilter(m: Mapper, filt: FilterDict) returns (f: FilterDict)
    ensures m.Identity? ==> f == filt
    ensures m.WithDict? ==> fresh(f)
    ensures f.entries == MapEntries(m, filt.entries)
  {
    match m
    case Identity =>
      f := filt;
    case WithDict(t) =>
      f := new FilterDict(KeyMap(Rename(t), filt.entries));
  }

  /** A column of the survey table; `None` is a missing value. */
  type Table = map<string, seq<Option<string>>>

  /** Why reading the survey table fails: the dataset has no survey part
      loaded, or the column does not exist. */
  datatype TableError = NoSurveyTable | MissingColumn(col: string)

  datatype SurveyDataset = SurveyDataset(
    dsid: string, meta: SurveyMeta, svy: Option<Table>, mapper: Mapper)

  predicate HasColumn(svy: Option<Table>, col: string) {
    svy.Some? && col in svy.value
  }

  function ColumnError(svy: Option<Table>, col: string): TableError {
    if svy.None? then NoSurveyTable else MissingColumn(col)
  }

  /** The distinct non-missing values of a column, less `exclude`. */
  function DistinctValues(cells: seq<Option<string>>, exclude: seq<string>): set<string> {
    set c | c in cells && c.Some? && c.value !in exclude :: c.value
  }

  /** `s` lists the members of `vals`, each once, in some order. */
  ghost predicate Enumerates(s: seq<string>, vals: set<string>) {
    Distinct(s) && forall x :: x in s <==> x in vals
  }

  /** `values_for_col`: the column's distinct values less `exclude`, in the
      unspecified order in which Python lists a set. */
  method ValuesForCol(svy: Option<Table>, col: string, exclude: seq<string>)
    returns (r: Result<seq<string>, TableError>)
    ensures r.Err? <==> !HasColumn(svy, col)
    ensures r.Err? ==> r.error == ColumnError(svy, col)
    ensures r.Ok? ==> Enumerates(r.value, DistinctValues(svy.value[col], exclude))
  {
    if !HasColumn(svy, col) {
      return Err(ColumnError(svy, col));
    }
    var vals := DistinctValues(svy.value[col], exclude);
    var rest := vals;
    var out := [];
    while rest != {}
      invariant rest <= vals
      invariant Distinct(out)
      invariant forall x :: x in out <==> x in vals && x !in rest
      decreases |rest|
    {
      var x :| x in rest;
      out := out + [x];
      rest := rest - {x};
    }
    return Ok(out);
  }

  /** One slice descriptor: dataset, question, response, the shared filter
      and the variables to group by (none for the total). */
  datatype Slice = Slice(d: string, q: string, r: string, f: FilterDict, vs: seq<string>)

  /** The `j`-th slice for one response: the prefixes `vars[..1]` up to
      `vars[..|vars|]`, then the total. */
  function SliceAt(d: string, qn: string, r: string, f: FilterDict, vars: seq<string>, j: nat): Slice
    requires j <= |vars|
  {
    Slice(d, qn, r, f, if j < |vars| then vars[..j + 1] else [])
  }

  function ForResponse(d: string, qn: string, r: string, f: FilterDict, vars: seq<string>): (rs: seq<Slice>)
    ensures |rs| == |vars| + 1
    ensures forall j :: 0 <= j <= |vars| ==> rs[j] == SliceAt(d, qn, r, f, vars, j)
  {
    seq(|vars|, k requires 0 <= k < |vars| => Slice(d, qn, r, f, vars[..k + 1])) + [Slice(d, qn, r, f, [])]
  }

  /** The slices `generate_slices` lists for the responses `resps`. */
  function SlicesFor(d: string, qn: string, resps: seq<string>, f: FilterDict, vars: seq<string>): seq<Slice> {
    if resps == [] then []
    else SlicesFor(d, qn, resps[..|resps| - 1], f, vars) + ForResponse(d, qn, resps[|resps| - 1], f, vars)
  }

  lemma MulLe(a: nat, b: nat, n: nat)
    requires a <= b
    ensures a * n <= b * n
  {
    assert b * n == a * n + (b - a) * n;
  }

  /** `|resps| * (|vars| + 1)` slices: `|vars| + 1` per response. */
  lemma {:induction false} SlicesForLength(d: string, qn: string, resps: seq<string>, f: FilterDict, vars: seq<string>)
    ensures |SlicesFor(d, qn, resps, f, vars)| == |resps| * (|vars| + 1)
  {
    if resps != [] {
      var m := |resps| - 1;
      SlicesForLength(d, qn, resps[..m], f, vars);
      assert |resps| * (|vars| + 1) == m * (|vars| + 1) + (|vars| + 1);
    }
  }

  /** Block `i` of `a + b`, where `a` holds `m` blocks of `n` and `b` one. */
  lemma BlockOf<T>(a: seq<T>, b: seq<T>, n: nat, m: nat, i: nat)
    requires |a| == m * n && |b| == n && i <= m
    ensures i * n + n <= |a + b|
    ensures i < m ==> i * n + n <= |a| && (a + b)[i * n..i * n + n] == a[i * n..i * n + n]
    ensures i == m ==> (a + b)[i * n..i * n + n] == b
  {
    MulLe(i, m, n);
    if i < m {
      MulLe(i + 1, m, n);
    }
  }

  /** Response by response: the slices of response `i` are the block
      `[i * (|vars| + 1), (i + 1) * (|vars| + 1))`, in the order of `resps`. */
  lemma {:induction false} SlicesForBlocks(d: string, qn: string, resps: seq<string>, f: FilterDict, vars: seq<string>)
    ensures |SlicesFor(d, qn, resps, f, vars)| == |resps| * (|vars| + 1)
    ensures forall i :: 0 <= i < |resps| ==>
      SlicesFor(d, qn, resps, f, vars)[i * (|vars| + 1)..i * (|vars| + 1) + |vars| + 1]
        == ForResponse(d, qn, resps[i], f, vars)
  {
    SlicesForLength(d, qn, resps, f, vars);
    if resps != [] {
      var n := |vars| + 1;
      var m := |resps| - 1;
      var init := resps[..m];
      SlicesForBlocks(d, qn, init, f, vars);
      var a := SlicesFor(d, qn, init, f, vars);
      var b := ForResponse(d, qn, resps[m], f, vars);
      var s := SlicesFor(d, qn, resps, f, vars);
      assert s == a + b;
      forall i | 0 <= i < |resps|
        ensures i * n + n <= |s| && s[i * n..i * n + n] == ForResponse(d, qn, resps[i], f, vars)
      {
        BlockOf(a, b, n, m, i);
        if i < m {
          assert resps[i] == init[i];
        }
      }
    }
  }

  /** Every slice names the dataset and the question, one of the responses
      and the filter object itself. */
  lemma {:induction false} SlicesShareFilter(d: string, qn: string, resps: seq<string>, f: FilterDict, vars: seq<string>)
    ensures forall sl :: sl in SlicesFor(d, qn, resps, f, vars) ==>
      sl.d == d && sl.q == qn && sl.r in resps && sl.f == f
  {
    if resps != [] {
      var m := |resps| - 1;
      var init := resps[..m];
      SlicesShareFilter(d, qn, init, f, vars);
      var b := ForResponse(d, qn, resps[m], f, vars);
      forall sl | sl in b
        ensures sl.d == d && sl.q == qn && sl.r == resps[m] && sl.f == f
      {
        var j :| 0 <= j < |b| && b[j] == sl;
      }
      assert forall x :: x in init ==> x in resps;
    }
  }

  /** The site restriction `generate_slices` writes when the filter has no
      site column: the configured national values when they are included,
      otherwise every other site value of the survey table. */
  ghost predicate NationalSites(national: ColumnFilter, svy: Option<Table>, siteCol: string, v: seq<string>) {
    if national.incl then v == national.vals
    else HasColumn(svy, siteCol) && Enumerates(v, DistinctValues(svy.value[siteCol], national.vals))
  }

  /** Looking up the other site values fails: the filter has no site
      column, the national values are excluded and the table has no site
      column to read them from. */
  predicate SiteLookupFails(ds: SurveyDataset, before: Dict<string, seq<string>>, siteCol: string) {
    siteCol !in Keys(before) && !ds.meta.national.incl && !HasColumn(ds.svy, siteCol)
  }

  /** `after` is `before` with the national site restriction appended. */
  ghost predicate SiteAdded(ds: SurveyDataset, before: Dict<string, seq<string>>, after: Dict<string, seq<string>>, siteCol: string) {
    && |after| == |before| + 1
    && after[..|before|] == before
    && after[|before|].0 == siteCol
    && NationalSites(ds.meta.national, ds.svy, siteCol, after[|before|].1)
  }

  /** Lines 269-273 of `generate_slices`: a filter without a site column is
      restricted to the national sites. The values are read before the
      filter is written, so a failed read leaves it as it was. */
  method RestrictToNational(ds: SurveyDataset, f: FilterDict, siteCol: string) returns (err: Option<TableError>)
    modifies f
    ensures err.Some? <==> SiteLookupFails(ds, old(f.entries), siteCol)
    ensures err.Some? ==> err.value == ColumnError(ds.svy, siteCol)
    ensures siteCol in Keys(old(f.entries)) || err.Some? ==> f.entries == old(f.entries)
    ensures siteCol !in Keys(old(f.entries)) && err.None? ==> SiteAdded(ds, old(f.entries), f.entries, siteCol)
  {
    if siteCol in Keys(f.entries) {
      return None;
    }
    var national := ds.meta.national;
    var sites: seq<string>;
    if national.incl {
      sites := national.vals;
    } else {
      var r := ValuesForCol(ds.svy, siteCol, national.vals);
      if r.Err? {
        return Some(r.error);
      }
      sites := r.value;
    }
    ghost var before := f.entries;
    AssignNew(before, siteCol, sites);
    f.Put(siteCol, sites);
    assert f.entries == before + [(siteCol, sites)];
    assert f.entries[..|before|] == before;
    return None;
  }

  /** The `for r in resps` loop of `generate_slices`. */
  method SlicesLoop(d: string, qn: string, resps: seq<string>, f: FilterDict, vs: seq<string>) returns (out: seq<Slice>)
    ensures out == SlicesFor(d, qn, resps, f, vs)
  {
    out := [];
    var i := 0;
    while i < |resps|
      invariant 0 <= i <= |resps|
      invariant out == SlicesFor(d, qn, resps[..i], f, vs)
    {
      assert resps[..i + 1][..i] == resps[..i];
      out := out + ForResponse(d, qn, resps[i], f, vs);
      i := i + 1;
    }
    assert resps[..i] == resps;
  }

  /** `generate_slices(qn, vars, filt)`. Besides the result it returns the
      response values the table enumerated and the filter object the slices
      share (the caller's own object under the identity mapper). */
  method GenerateSlices(ds: SurveyDataset, qn: string, vars: seq<string>, filt: FilterDict)
    returns (res: Result<seq<Slice>, TableError>, resps: seq<string>, f: FilterDict)
    modifies filt
    ensures ds.mapper.Identity? ==> f == filt
    ensures ds.mapper.WithDict? ==> fresh(f) && unchanged(filt)
    ensures var siteCol := MapName(ds.mapper, "sitecode");
      var before := MapEntries(ds.mapper, old(filt.entries));
      && (res.Err? <==> SiteLookupFails(ds, before, siteCol) || !HasColumn(ds.svy, qn))
      && (SiteLookupFails(ds, before, siteCol) ==> res == Err(ColumnError(ds.svy, siteCol)))
      && (!SiteLookupFails(ds, before, siteCol) && !HasColumn(ds.svy, qn) ==> res == Err(ColumnError(ds.svy, qn)))
      && (siteCol in Keys(before) || SiteLookupFails(ds, before, siteCol) ==> f.entries == before)
      && (siteCol !in Keys(before) && !SiteLookupFails(ds, before, siteCol) ==> SiteAdded(ds, before, f.entries, siteCol))
    ensures res.Ok? ==> Enumerates(resps, DistinctValues(ds.svy.value[qn], []))
    ensures res.Ok? ==> res.value == SlicesFor(ds.dsid, qn, resps, f, MapNames(ds.mapper, vars))
  {
    var vs := MapNames(ds.mapper, vars);
    f := MapFilter(ds.mapper, filt);
    var siteCol := MapName(ds.mapper, "sitecode");
    resps := [];
    var err := RestrictToNational(ds, f, siteCol);
    if err.Some? {
      return Err(err.value), resps, f;
    }
    var rq := ValuesForCol(ds.svy, qn, []);
    if rq.Err? {
      return Err(rq.error), resps, f;
    }
    resps := rq.value;
    var out := SlicesLoop(ds.dsid, qn, resps, f, vs);
    return Ok(out), resps, f;
  }

  /** The precomputed-statistics table's columns the row selection needs
      beyond the facets: the question id, site and year columns. */
  datatype SocrataColumns = SocrataColumns(idCol: string, siteCol: string, yearCol: string)

  /** One column's test in `fetch_socrata`: a filtered column must hold one
      of the filter's values; an unfiltered column that is not requested
      must hold its default (`XX` for the site, `Total` otherwise). */
  predicate ColumnKept(row: map<string, string>, col: string, filt: Dict<string, seq<string>>,
                       vars: seq<string>, dflt: string)
    requires col in row
  {
    if col in Keys(filt) then row[col] in Get(filt, col).value
    else col !in vars ==> row[col] == dflt
  }

  /** `fetch_socrata` reads a column when it is filtered or not requested. */
  predicate Reads(col: string, filt: Dict<string, seq<string>>, vars: seq<string>) {
    col in Keys(filt) || col !in vars
  }

  /** The facet columns the selection tests: configured facets the table has. */
  function TestedFacets(facets: seq<string>, row: map<string, string>): (fs: set<string>)
    ensures forall v :: v in fs <==> v in facets && v in row
  {
    set v | v in facets && v in row
  }

  /** Every tested facet column holds a filtered value or, when neither
      filtered nor requested, `Total`. */
  predicate FacetsKept(facets: seq<string>, row: map<string, string>,
                       vars: seq<string>, filt: Dict<string, seq<string>>) {
    forall v :: v in TestedFacets(facets, row) ==> ColumnKept(row, v, filt, vars, "Total")
  }

  /** The row selection of `fetch_socrata` on one row, with `vars` and
      `filt` already mapped; `None` when it reads a column the table lacks. */
  function RowSelection(cols: SocrataColumns, facets: seq<string>, row: map<string, string>,
                        qn: string, vars: seq<string>, filt: Dict<string, seq<string>>): (r: Option<bool>)
    ensures r.None? <==> cols.idCol !in row
                         || (Reads(cols.siteCol, filt, vars) && cols.siteCol !in row)
                         || (Reads(cols.yearCol, filt, vars) && cols.yearCol !in row)
  {
    if cols.idCol !in row then None
    else if Reads(cols.siteCol, filt, vars) && cols.siteCol !in row then None
    else if Reads(cols.yearCol, filt, vars) && cols.yearCol !in row then None
    else Some(
      row[cols.idCol] == qn
      && (cols.siteCol in row ==> ColumnKept(row, cols.siteCol, filt, vars, "XX"))
      && (cols.yearCol in row ==> ColumnKept(row, cols.yearCol, filt, vars, "Total"))
      && FacetsKept(facets, row, vars, filt))
  }

  /** The `for v in fcts` loop of `fetch_socrata`: one conjunct per tested
      facet, in set order. */
  method AndFacets(sel: bool, facets: seq<string>, row: map<string, string>,
                   vars: seq<string>, filt: Dict<string, seq<string>>) returns (keep: bool)
    ensures keep == (sel && FacetsKept(facets, row, vars, filt))
  {
    keep := sel;
    var fcts := TestedFacets(facets, row);
    var rest := fcts;
    ghost var done: set<string> := {};
    while rest != {}
      invariant rest <= fcts && done == fcts - rest
      invariant keep == (sel && forall u :: u in done ==> ColumnKept(row, u, filt, vars, "Total"))
      decreases |rest|
    {
      var v :| v in rest;
      if v in Keys(filt) {
        keep := keep && row[v] in Get(filt, v).value;
      } else if v !in vars {
        keep := keep && row[v] == "Total";
      }
      rest := rest - {v};
      done := done + {v};
    }
  }

  /** The selection as `fetch_socrata` builds it: the id test, the site and
      year tests, then the facet loop. */
  method SelectRow(cols: SocrataColumns, facets: seq<string>, row: map<string, string>,
                   qn: string, vars: seq<string>, filt: Dict<string, seq<string>>)
    returns (sel: Option<bool>)
    ensures sel == RowSelection(cols, facets, row, qn, vars, filt)
  {
    if cols.idCol !in row {
      return None;
    }
    var keep := row[cols.idCol] == qn;
    if cols.siteCol in Keys(filt) {
      if cols.siteCol !in row { return None; }
      keep := keep && row[cols.siteCol] in Get(filt, cols.siteCol).value;
    } else if cols.siteCol !in vars {
      if cols.siteCol !in row { return None; }
      keep := keep && row[cols.siteCol] == "XX";
    }
    if cols.yearCol in Keys(filt) {
      if cols.yearCol !in row { return None; }
      keep := keep && row[cols.yearCol] in Get(filt, cols.yearCol).value;
    } else if cols.yearCol !in vars {
      if cols.yearCol !in row { return None; }
      keep := keep && row[cols.yearCol] == "Total";
    }
    keep := AndFacets(keep, facets, row, vars, filt);
    return Some(keep);
  }

  /** Requesting more variables never drops a row: a requested column is
      only exempted from its default. */
  lemma RowSelectionMonotone(cols: SocrataColumns, facets: seq<string>, row: map<string, string>,
                             qn: string, vars: seq<string>, more: seq<string>, filt: Dict<string, seq<string>>)
    requires forall v :: v in vars ==> v in more
    requires RowSelection(cols, facets, row, qn, vars, filt) == Some(true)
    ensures RowSelection(cols, facets, row, qn, more, filt) == Some(true)
  {
    forall v | v in TestedFacets(facets, row)
      ensures ColumnKept(row, v, filt, more, "Total")
    {
      assert ColumnKept(row, v, filt, vars, "Total");
    }
  }

  /** With no filter and no variables only the national total row of the
      question is kept: site `XX`, year `Total`, every facet `Total`. */
  lemma NationalTotalRow(cols: SocrataColumns, facets: seq<string>, row: map<string, string>, qn: string)
    requires cols.idCol in row && cols.siteCol in row && cols.yearCol in row
    ensures RowSelection(cols, facets, row, qn, [], []) == Some(
      row[cols.idCol] == qn && row[cols.siteCol] == "XX" && row[cols.yearCol] == "Total"
      && forall v :: v in facets && v in row ==> row[v] == "Total")
  {
    var none: Dict<string, seq<string>> := [];
    assert Keys(none) == [];
    assert forall v :: v in TestedFacets(facets, row) ==>
      (ColumnKept(row, v, none, [], "Total") <==> row[v] == "Total");
  }

  /** The columns `fetch_socrata` returns: annotations, requested variables
      and statistics, as far as the table has them. */
  function SelectedColumns(anno: seq<string>, vars: seq<string>, stats: seq<string>, fields: set<string>): (cs: set<string>)
    ensures forall c :: c in cs <==> c in fields && (c in anno || c in vars || c in stats)
  {
    set c | c in fields && (c in anno || c in vars || c in stats)
  }

  /** What `fetch_stats_for_slice` hands to, or returns instead of, the
      survey engine. */
  datatype SliceStats =
    | EmptyTable(columns: seq<string>)
    | Grouped(formula: string, r: string, vars: seq<string>)
    | Totals(formula: string, r: string)

  const StatColumns: seq<string> := ["mean", "se", "ci_l", "ci_u", "count", "sample_size"]

  /** The survey formula `~I(qn=="r")`. */
  function ResponseFormula(qn: string, r: string): (s: string)
    ensures |s| == |qn| + |r| + 8
    ensures s[..3] == "~I(" && s[3..3 + |qn|] == qn
    ensures s[3 + |qn|..6 + |qn|] == "==\"" && s[6 + |qn|..|s| - 2] == r
    ensures s[|s| - 2..] == "\")"
  {
    "~I(" + qn + "==\"" + r + "\")"
  }

  /** A question name without `=` can be read back from the formula, and
      so can the response: the first `=` ends the name. */
  lemma ResponseFormulaDecodes(q1: string, r1: string, q2: string, r2: string)
    requires '=' !in q1 && '=' !in q2
    requires ResponseFormula(q1, r1) == ResponseFormula(q2, r2)
    ensures q1 == q2 && r1 == r2
  {
    if |q1| < |q2| {
      NoEqualsInName(q2, r2, |q1|);
      EqualsAfterName(q1, r1);
      assert false;
    } else if |q2| < |q1| {
      NoEqualsInName(q1, r1, |q2|);
      EqualsAfterName(q2, r2);
      assert false;
    }
  }

  lemma EqualsAfterName(qn: string, r: string)
    ensures ResponseFormula(qn, r)[3 + |qn|] == '='
  {
    assert ResponseFormula(qn, r)[3 + |qn|] == ResponseFormula(qn, r)[3 + |qn|..6 + |qn|][0];
  }

  lemma NoEqualsInName(qn: string, r: string, i: nat)
    requires '=' !in qn && i < |qn|
    ensures ResponseFormula(qn, r)[3 + i] != '='
  {
    assert ResponseFormula(qn, r)[3 + i] == ResponseFormula(qn, r)[3..3 + |qn|][i];
  }

  /** `fetch_stats_for_slice`; `rows` is the row count of the filtered
      design, which the survey engine computes. */
  function FetchStatsForSlice(m: Mapper, qn: string, r: string, vars: seq<string>, rows: nat): (out: SliceStats)
    ensures rows == 0 <==> out.EmptyTable?
    ensures out.EmptyTable? ==> out.columns == ["levelresponse"] + MapNames(m, vars) + StatColumns
    ensures rows > 0 ==> (out.Grouped? <==> |vars| > 0)
    ensures out.Grouped? ==> out == Grouped(ResponseFormula(qn, r), r, MapNames(m, vars))
    ensures out.Totals? ==> out == Totals(ResponseFormula(qn, r), r)
  {
    var vs := MapNames(m, vars);
    assert "level" + "response" == "levelresponse";
    if rows == 0 then EmptyTable(["level" + "response"] + vs + StatColumns)
    else if |vs| > 0 then Grouped(ResponseFormula(qn, r), r, vs)
    else Totals(ResponseFormula(qn, r), r)
  }

  /** The empty result has one column per requested variable plus seven. */
  lemma EmptyTableWidth(m: Mapper, qn: string, r: string, vars: seq<string>)
    ensures |FetchStatsForSlice(m, qn, r, vars, 0).columns| == |vars| + 7
  {
  }
}
