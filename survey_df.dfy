/** The column and cell rules of etl/survey_df.py that turn the frames read
    from SAS files into one survey frame: which columns are kept, which
    strings count as missing, how missing values are filled, how columns
    that start with `_` are renamed, when a column is converted to labelled
    categories, and how FIPS site codes become state abbreviations. A frame
    is a list of columns; a column has a name, a pandas dtype and its
    cells. */
module SurveyFrames {
  import opened Common
  import opened Text
  import opened Dicts
  import opened Seqs

  /** A cell: text, a number, or missing (`NaN`). */
  datatype Cell = Str(s: string) | Num(n: int) | Missing

  /** The dtypes the fill rule tells apart: `object`, `category`, and the
      numeric ones. */
  datatype Dtype = Object | Category | Int | Float

  datatype Column = Column(name: string, dtype: Dtype, cells: seq<Cell>)

  function Names(df: seq<Column>): (ns: seq<string>)
    ensures |ns| == |df| && forall i :: 0 <= i < |df| ==> ns[i] == df[i].name
  {
    seq(|df|, i requires 0 <= i < |df| => df[i].name)
  }

  // ---------------------------------------------------------------------
  // SITECODE_TRANSLATORS['fips']

  /** The translator for a FIPS site code: the state or territory's
      abbreviation when the code is one of the known FIPS numbers, else
      `'NA'`. `states` maps each known FIPS number to its abbreviation. */
  function TranslateSite(code: int, states: map<int, string>): string {
    if code in states then states[code] else "NA"
  }

  /** `df[sitecode].apply(SITECODE_TRANSLATORS['fips'])` */
  function TranslateSites(codes: seq<int>, states: map<int, string>): (r: seq<string>)
    ensures |r| == |codes|
    ensures forall i :: 0 <= i < |codes| ==> r[i] == TranslateSite(codes[i], states)
  {
    seq(|codes|, i requires 0 <= i < |codes| => TranslateSite(codes[i], states))
  }

  /** Every translated site is a known abbreviation or `'NA'`, and when no
      abbreviation is `'NA'` a site is `'NA'` exactly when its code is
      unknown. */
  lemma TranslatedSites(codes: seq<int>, states: map<int, string>)
    ensures forall v :: v in TranslateSites(codes, states) ==> v == "NA" || v in states.Values
    ensures "NA" !in states.Values ==>
      forall i :: 0 <= i < |codes| ==> (TranslateSites(codes, states)[i] == "NA" <==> codes[i] !in states)
  {
    var r := TranslateSites(codes, states);
    forall v | v in r ensures v == "NA" || v in states.Values {
      var i :| 0 <= i < |r| && r[i] == v;
      if codes[i] in states {
        assert states[codes[i]] in states.Values;
      }
    }
    if "NA" !in states.Values {
      forall i | 0 <= i < |codes| ensures r[i] == "NA" <==> codes[i] !in states {
        if codes[i] in states {
          assert states[codes[i]] in states.Values;
        }
      }
    }
  }

  // ---------------------------------------------------------------------
  // filter_columns

  /** `sorted(list((set(qids) | facets.keys()) & set(df.columns)))` */
  function FilterColumns(columns: seq<string>, facetKeys: seq<string>, qids: seq<string>): (cols: seq<string>)
    ensures StrictlySorted(cols, StrLess)
    ensures forall c :: c in cols <==> c in columns && (c in qids || c in facetKeys)
  {
    StrLessOrder();
    SortedSet(Filter(qids + facetKeys, (c: string) => c in columns), StrLess)
  }

  /** The kept columns are the only sorted list without repeats of the
      frame's columns that are questions or facets. */
  lemma FilterColumnsUnique(columns: seq<string>, facetKeys: seq<string>, qids: seq<string>, cols: seq<string>)
    requires StrictlySorted(cols, StrLess)
    requires forall c :: c in cols <==> c in columns && (c in qids || c in facetKeys)
    ensures cols == FilterColumns(columns, facetKeys, qids)
  {
    StrLessOrder();
    SortedUnique(cols, FilterColumns(columns, facetKeys, qids), StrLess);
  }

  /** The first column of the frame with a given name. */
  function ColumnNamed(df: seq<Column>, name: string): (c: Column)
    requires name in Names(df)
    ensures c in df && c.name == name
  {
    if df[0].name == name then df[0]
    else
      assert Names(df) == [df[0].name] + Names(df[1..]);
      ColumnNamed(df[1..], name)
  }

  /** `filter_columns(df, facets, qids)`: `df[cols]`. */
  function FilteredFrame(df: seq<Column>, facetKeys: seq<string>, qids: seq<string>): (r: seq<Column>)
    ensures Names(r) == FilterColumns(Names(df), facetKeys, qids)
    ensures forall c :: c in r ==> c in df
  {
    var cols := FilterColumns(Names(df), facetKeys, qids);
    assert forall i :: 0 <= i < |cols| ==> cols[i] in Names(df) by {
      forall i | 0 <= i < |cols| ensures cols[i] in Names(df) {
        assert cols[i] in cols;
      }
    }
    var r := seq(|cols|, i requires 0 <= i < |cols| => ColumnNamed(df, cols[i]));
    assert Names(r) == cols;
    r
  }

  // ---------------------------------------------------------------------
  // find_na_synonyms

  /** The cell rule of `find_na_synonyms`: a string whose lowercase form is
      a synonym of "missing" becomes `NaN`; everything else stays. */
  function NaSynonym(x: Cell, naSyns: set<string>): (r: Cell)
    ensures r == Missing <==> x == Missing || (x.Str? && Lower(x.s) in naSyns)
    ensures r != Missing ==> r == x
  {
    if x.Str? && Lower(x.s) in naSyns then Missing else x
  }

  /** Applying the rule twice changes nothing more. */
  lemma NaSynonymIdempotent(x: Cell, naSyns: set<string>)
    ensures NaSynonym(NaSynonym(x, naSyns), naSyns) == NaSynonym(x, naSyns)
  {
  }

  function NaColumn(c: Column, naSyns: set<string>): Column {
    Column(c.name, c.dtype, seq(|c.cells|, j requires 0 <= j < |c.cells| => NaSynonym(c.cells[j], naSyns)))
  }

  /** `find_na_synonyms(df, na_syns)`: the rule on every cell. */
  function FindNaSynonyms(df: seq<Column>, naSyns: set<string>): (r: seq<Column>)
    ensures |r| == |df|
    ensures forall i :: 0 <= i < |df| ==>
      r[i].name == df[i].name && r[i].dtype == df[i].dtype && |r[i].cells| == |df[i].cells|
      && forall j :: 0 <= j < |df[i].cells| ==> r[i].cells[j] == NaSynonym(df[i].cells[j], naSyns)
  {
    seq(|df|, i requires 0 <= i < |df| => NaColumn(df[i], naSyns))
  }

  // ---------------------------------------------------------------------
  // The fill rule of merge_multiyear_surveys

  predicate IsText(dt: Dtype) { dt == Object || dt == Category }

  /** What a missing cell becomes: `'NA'` in text columns, `-1` in the
      others. */
  function FillValue(dt: Dtype): Cell {
    if IsText(dt) then Str("NA") else Num(-1)
  }

  /** `x.fillna('NA').astype('category')` for `object` and `category`
      columns, `x.fillna(-1)` for the others. */
  function FillColumn(c: Column): (r: Column)
    ensures r.name == c.name && |r.cells| == |c.cells|
    ensures Missing !in r.cells
    ensures forall j :: 0 <= j < |c.cells| ==>
      r.cells[j] == if c.cells[j] == Missing then FillValue(c.dtype) else c.cells[j]
    ensures r.dtype == if IsText(c.dtype) then Category else c.dtype
  {
    var cells := seq(|c.cells|, j requires 0 <= j < |c.cells| =>
      if c.cells[j] == Missing then FillValue(c.dtype) else c.cells[j]);
    Column(c.name, if IsText(c.dtype) then Category else c.dtype, cells)
  }

  /** Filling a filled column changes nothing. */
  lemma FillIdempotent(c: Column)
    ensures FillColumn(FillColumn(c)) == FillColumn(c)
  {
    var f := FillColumn(c);
    assert forall j :: 0 <= j < |f.cells| ==> f.cells[j] != Missing by {
      forall j | 0 <= j < |f.cells| ensures f.cells[j] != Missing {
        assert f.cells[j] in f.cells;
      }
    }
    assert FillColumn(f).cells == f.cells;
  }

  // ---------------------------------------------------------------------
  // undash_fn

  /** `undash_fn(x)`: `'x' + x` when `x` starts with `_`, else `x`; `None`
      is the `IndexError` of `x[0]` on an empty name. */
  function Undash(x: string): (r: Option<string>)
    ensures r.None? <==> x == []
    ensures r.Some? ==> |r.value| > 0 && r.value[0] != '_'
    ensures r.Some? && x[0] == '_' ==> r.value == "x" + x
    ensures r.Some? && x[0] != '_' ==> r.value == x
  {
    if x == [] then None
    else if x[0] == '_' then Some("x" + x)
    else Some(x)
  }

  /** Renaming a renamed column changes nothing. */
  lemma UndashIdempotent(x: string)
    requires x != []
    ensures Undash(Undash(x).value) == Undash(x)
  {
  }

  /** The rename is not one-to-one: `_a` and `x_a` both become `x_a`. */
  lemma UndashMerges(y: string)
    ensures Undash("_" + y) == Undash("x_" + y) == Some("x_" + y)
  {
    assert ("x_" + y)[0] == 'x';
    assert "x" + ("_" + y) == "x_" + y;
  }

  // ---------------------------------------------------------------------
  // merge_multiyear_surveys

  /** `IndexError`: a column name is empty. */
  datatype MergeError = EmptyColumnName

  /** One column through the merge: synonyms of "missing" cleared, then
      filled, then renamed. */
  function MergeColumn(c: Column, naSyns: set<string>): Result<Column, MergeError> {
    var name := Undash(c.name);
    if name.None? then Err(EmptyColumnName)
    else
      var f := FillColumn(NaColumn(c, naSyns));
      Ok(Column(name.value, f.dtype, f.cells))
  }

  /** `merge_multiyear_surveys` after the frames are concatenated. */
  function MergeSurveys(df: seq<Column>, naSyns: set<string>): (r: Result<seq<Column>, MergeError>)
    ensures r.Err? <==> exists c :: c in df && c.name == []
    ensures r.Ok? ==> |r.value| == |df|
  {
    Traverse(df, (c: Column) => MergeColumn(c, naSyns))
  }

  /** Each merged column keeps its cells, renamed: a cell that was missing
      or a synonym of "missing" is `'NA'` in a text column and `-1` in a
      numeric one; every other cell is unchanged. */
  lemma MergedColumns(df: seq<Column>, naSyns: set<string>)
    requires MergeSurveys(df, naSyns).Ok?
    ensures forall i :: 0 <= i < |df| ==>
      var c, m := df[i], MergeSurveys(df, naSyns).value[i];
      && Undash(c.name) == Some(m.name)
      && m.dtype == (if IsText(c.dtype) then Category else c.dtype)
      && |m.cells| == |c.cells|
      && forall j :: 0 <= j < |c.cells| ==>
        m.cells[j] == if NaSynonym(c.cells[j], naSyns) == Missing then FillValue(c.dtype) else c.cells[j]
  {
    var r := MergeSurveys(df, naSyns).value;
    forall i | 0 <= i < |df|
      ensures var c, m := df[i], r[i];
        && Undash(c.name) == Some(m.name)
        && m.dtype == (if IsText(c.dtype) then Category else c.dtype)
        && |m.cells| == |c.cells|
        && forall j :: 0 <= j < |c.cells| ==>
          m.cells[j] == if NaSynonym(c.cells[j], naSyns) == Missing then FillValue(c.dtype) else c.cells[j]
    {
      assert MergeColumn(df[i], naSyns) == Ok(r[i]);
    }
  }

  /** No merged cell is missing. */
  lemma MergedComplete(df: seq<Column>, naSyns: set<string>)
    requires MergeSurveys(df, naSyns).Ok?
    ensures forall m :: m in MergeSurveys(df, naSyns).value ==> Missing !in m.cells
  {
    var r := MergeSurveys(df, naSyns).value;
    forall m | m in r ensures Missing !in m.cells {
      var i :| 0 <= i < |r| && r[i] == m;
      assert MergeColumn(df[i], naSyns) == Ok(m);
    }
  }

  // ---------------------------------------------------------------------
  // eager_convert_categorical

  /** The result of `eager_convert_categorical` on a numeric column: the
      column itself, a categorical of labels with its categories, or the
      fallback `force_convert_categorical`, which replaces labelled codes
      and keeps the others. */
  datatype Converted =
    | Unchanged
    | Labelled(labels: seq<string>, categories: seq<string>)
    | Replaced(cells: seq<Cell>)

  /** `s.fillna(-1)` on one cell. */
  function Code(x: Option<int>): int {
    if x.Some? then x.value else -1
  }

  function Labels(m: Dict<int, string>): (ls: seq<string>)
    ensures |ls| == |m| && forall i :: 0 <= i < |m| ==> ls[i] == m[i].1
  {
    seq(|m|, i requires 0 <= i < |m| => m[i].1)
  }

  lemma IntLessOrder()
    ensures StrictTotalOrder((a: int, b: int) => a < b)
  {
  }

  /** The label of every code in `keys`, in that order. */
  function LabelsOf(m: Dict<int, string>, ks: seq<int>): (ls: seq<string>)
    requires forall i :: 0 <= i < |ks| ==> ks[i] in Keys(m)
    ensures |ls| == |ks| && forall i :: 0 <= i < |ks| ==> Get(m, ks[i]) == Some(ls[i])
  {
    seq(|ks|, i requires 0 <= i < |ks| => Get(m, ks[i]).value)
  }

  /** `force_convert_categorical`: labelled codes replaced by their
      labels, the others kept. */
  function ReplaceCodes(m: Dict<int, string>, codes: seq<Option<int>>): (r: seq<Cell>)
    ensures |r| == |codes|
    ensures forall i :: 0 <= i < |codes| ==>
      r[i] == match Get(m, Code(codes[i]))
        case Some(l) => Str(l)
        case None => Num(Code(codes[i]))
  {
    seq(|codes|, i requires 0 <= i < |codes| =>
      match Get(m, Code(codes[i]))
      case Some(l) => Str(l)
      case None => Num(Code(codes[i])))
  }

  /** Every code has a label. */
  predicate AllLabelled(m: Dict<int, string>, codes: seq<Option<int>>) {
    forall i :: 0 <= i < |codes| ==> Code(codes[i]) in Keys(m)
  }

  /** `s.fillna(-1)` as integers. */
  function Codes(codes: seq<Option<int>>): (cs: seq<int>)
    ensures |cs| == |codes| && forall i :: 0 <= i < |codes| ==> cs[i] == Code(codes[i])
  {
    seq(|codes|, i requires 0 <= i < |codes| => Code(codes[i]))
  }

  /** The categories in code order. */
  function SortedKeys(m: Dict<int, string>): (ks: seq<int>)
    ensures StrictlySorted(ks, (a: int, b: int) => a < b)
    ensures forall k :: k in ks <==> k in Keys(m)
  {
    IntLessOrder();
    SortedSet(Keys(m), (a: int, b: int) => a < b)
  }

  /** `eager_convert_categorical(s, lbls)` on a column named `name` whose
      cells are the integer codes `codes` (`None` for `NaN`). A column
      without a label map, or with a code that has no label (`KeyError`),
      is left as it was. With every code labelled and no label shared, each
      cell carries its code's label and the categories are the labels in
      code order. A label shared by two codes makes pandas refuse the
      categories (`ValueError`), and the fallback replaces the labelled
      codes only. */
  function EagerConvert(name: string, codes: seq<Option<int>>, lbls: Dict<string, Dict<int, string>>): (r: Converted)
    ensures r.Unchanged? <==> Get(lbls, name).None? || !AllLabelled(Get(lbls, name).value, codes)
    ensures r.Labelled? <==>
      Get(lbls, name).Some? && AllLabelled(Get(lbls, name).value, codes) && Distinct(Labels(Get(lbls, name).value))
    ensures r.Labelled? ==>
      && |r.labels| == |codes|
      && (forall i :: 0 <= i < |codes| ==> Get(Get(lbls, name).value, Code(codes[i])) == Some(r.labels[i]))
      && |r.categories| == |SortedKeys(Get(lbls, name).value)|
      && forall i :: 0 <= i < |r.categories| ==>
        Get(Get(lbls, name).value, SortedKeys(Get(lbls, name).value)[i]) == Some(r.categories[i])
    ensures r.Replaced? ==> r.cells == ReplaceCodes(Get(lbls, name).value, codes)
  {
    match Get(lbls, name)
    case None => Unchanged
    case Some(m) =>
      if !AllLabelled(m, codes) then Unchanged
      else if !Distinct(Labels(m)) then Replaced(ReplaceCodes(m, codes))
      else
        var ks := SortedKeys(m);
        assert forall i :: 0 <= i < |ks| ==> ks[i] in Keys(m) by {
          forall i | 0 <= i < |ks| ensures ks[i] in Keys(m) {
            assert ks[i] in ks;
          }
        }
        Labelled(LabelsOf(m, Codes(codes)), LabelsOf(m, ks))
  }
}
