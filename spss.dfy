/** The SPSS syntax readers of etl/spss.py: the fixed-width column layout
    of a `DATA LIST FILE` block and the question and response labels of the
    `VARIABLE LABELS` and `VALUE LABELS` blocks. Both read the file line by
    line; here the file is the sequence of its lines. Each reader is a
    method with the source's loop, proved equal to a fold of a per-line
    step function over the lines. */
module Spss {
  import opened Common
  import opened Text
  import opened Numbers
  import opened Dicts

  datatype SpssError =
    | NameError(unbound: string)       // a name the module never binds
    | BadSpan(span: string)            // `parse_field_span`
    | OddWidths(line: string)          // a widths line with an odd token count
    | BadLabel(line: string)           // a variable label line without a space
    | KeyError(name: Option<string>)    // closing a value block for an unknown variable

  /** `s` with every double and single quote left out. */
  function Unquoted(s: string): (r: string)
    ensures '"' !in r && '\'' !in r
    ensures forall c :: c in s && c != '"' && c != '\'' <==> c in r
  {
    if s == [] then [] else (if s[0] == '"' || s[0] == '\'' then [] else [s[0]]) + Unquoted(s[1..])
  }

  /** The two `replace` calls of `strip_line` leave out exactly the quotes. */
  lemma {:induction false} ReplaceQuotes(s: string)
    ensures ReplaceChar(ReplaceChar(s, '"', ""), '\'', "") == Unquoted(s)
    decreases |s|
  {
    if s != [] {
      var h := if s[0] == '"' then [] else [s[0]];
      ReplaceCharAppend(h, ReplaceChar(s[1..], '"', ""), '\'', "");
      ReplaceCharSingle(s[0], '\'', "");
      ReplaceQuotes(s[1..]);
    }
  }

  /** `strip_line`: surrounding whitespace, then surrounding periods, then
      every double and single quote removed. */
  function StripLine(l: string): (r: string)
    ensures r == Unquoted(StripChar(Strip(l), '.'))
    ensures '"' !in r && '\'' !in r
    ensures forall c :: c in r ==> c in l
  {
    var a := StripChar(Strip(l), '.');
    ReplaceAllChar(a, '"', "");
    ReplaceAllChar(ReplaceAll(a, "\"", ""), '\'', "");
    ReplaceQuotes(a);
    ReplaceAll(ReplaceAll(a, "\"", ""), "'", "")
  }

  /** A quote-free line without surrounding whitespace or periods is its
      own stripped form. */
  lemma StripLineUnchanged(l: string)
    requires '"' !in l && '\'' !in l
    requires l == [] || (!IsSpace(l[0]) && !IsSpace(l[|l| - 1]) && l[0] != '.' && l[|l| - 1] != '.')
    ensures StripLine(l) == l
  {
    StripByUnchanged(l, IsSpace);
    StripByUnchanged(l, x => x == '.');
    ReplaceAllAbsent(l, '"', "");
    ReplaceAllAbsent(l, '\'', "");
  }

  /** `parse_field_span("st-en")`: the zero-based start and the end. */
  function ParseFieldSpan(span: string): Result<(int, int), SpssError> {
    var parts := Split(span, '-');
    if |parts| != 2 then Err(BadSpan(span))
    else
      var st := ParseInt(parts[0], 10);
      var en := ParseInt(parts[1], 10);
      if st.None? || en.None? then Err(BadSpan(span)) else Ok((st.value - 1, en.value))
  }

  /** A span is accepted exactly when it has two pieces and both parse;
      otherwise the error names the whole span. */
  lemma ParseFieldSpanOk(span: string)
    ensures ParseFieldSpan(span).Ok? <==>
      |Split(span, '-')| == 2 && ParseInt(Split(span, '-')[0], 10).Some? && ParseInt(Split(span, '-')[1], 10).Some?
    ensures ParseFieldSpan(span).Err? ==> ParseFieldSpan(span).error == BadSpan(span)
  {
  }

  /** No piece of a span carries a minus sign, so a parsed span starts at
      -1 or later and ends at 0 or later. */
  lemma FieldSpanRange(span: string)
    requires ParseFieldSpan(span).Ok?
    ensures ParseFieldSpan(span).value.0 >= -1 && ParseFieldSpan(span).value.1 >= 0
  {
    var parts := Split(span, '-');
    assert parts[0] in parts && parts[1] in parts;
    ParseIntNonNegative(parts[0], 10);
    ParseIntNonNegative(parts[1], 10);
  }

  /** The one-based inclusive span text of a column read back. */
  lemma ParseFieldSpanRoundTrip(st: nat, en: nat)
    ensures ParseFieldSpan(ShowNat(st + 1, 10) + "-" + ShowNat(en, 10)) == Ok((st, en))
  {
    var a, b := ShowNat(st + 1, 10), ShowNat(en, 10);
    assert '-' !in a by { assert forall k :: 0 <= k < |a| ==> IsDigit(a[k]); }
    assert '-' !in b by { assert forall k :: 0 <= k < |b| ==> IsDigit(b[k]); }
    assert a + "-" + b == Join([a, b], '-');
    SplitJoin([a, b], '-');
    ParseShowNat(st + 1, 10);
    ParseShowNat(en, 10);
  }

  /** A span written with a negative start has three pieces. */
  lemma NegativeStartRejected()
    ensures ParseFieldSpan("-1-5") == Err(BadSpan("-1-5"))
  {
    var parts := ["", "1", "5"];
    assert parts[1..] == ["1", "5"] && parts[1..][1..] == ["5"];
    assert Join(["5"], '-') == "5";
    assert Join(["1", "5"], '-') == "1-5";
    assert Join(parts, '-') == "-1-5";
    SplitJoin(parts, '-');
  }

  type ColSpecs = Dict<string, (int, int)>

  /** The tokens of a widths line: `(A)` markers removed, split on
      whitespace. */
  function WidthTokens(line: string): seq<string> {
    Tokens(ReplaceAll(StripLine(line), "(A)", ""))
  }

  /** The (name, span) pairs of an even token list, names lowercased and
      spans read by `parse`; an error at the first span that does not
      parse. */
  function PairsBy(widths: seq<string>, parse: string -> Result<(int, int), SpssError>)
    : Result<seq<(string, (int, int))>, SpssError>
    decreases |widths|
  {
    if |widths| < 2 then Ok([])
    else
      var sp := parse(widths[1]);
      if sp.Err? then Err(sp.error)
      else
        var rest := PairsBy(widths[2..], parse);
        if rest.Err? then rest else Ok([(Lower(widths[0]), sp.value)] + rest.value)
  }

  /** The pairs of a widths line. */
  function SpanPairs(widths: seq<string>): Result<seq<(string, (int, int))>, SpssError> {
    PairsBy(widths, ParseFieldSpan)
  }

  /** The specs with the pairs assigned in order, or the pairs' error. */
  function Placed(specs: ColSpecs, pairs: Result<seq<(string, (int, int))>, SpssError>): Result<ColSpecs, SpssError> {
    match pairs
    case Ok(ps) => Ok(AssignAll(specs, ps))
    case Err(e) => Err(e)
  }

  /** The column specs after a widths line: every pair assigned in order. */
  function AddWidths(specs: ColSpecs, widths: seq<string>): Result<ColSpecs, SpssError>
    requires |widths| % 2 == 0
  {
    Placed(specs, SpanPairs(widths))
  }

  /** The inner `for i in range(0, len(widths), 2)` loop. */
  method AddWidthsLoop(specs: ColSpecs, widths: seq<string>) returns (r: Result<ColSpecs, SpssError>)
    requires |widths| % 2 == 0
    ensures r == AddWidths(specs, widths)
  {
    r := AddPairsLoop(specs, widths, ParseFieldSpan);
  }

  /** The loop itself, with the span reader as a parameter so that its
      proof does not look inside `parse_field_span`. */
  method AddPairsLoop(specs: ColSpecs, widths: seq<string>, parse: string -> Result<(int, int), SpssError>)
    returns (r: Result<ColSpecs, SpssError>)
    requires |widths| % 2 == 0
    ensures r == Placed(specs, PairsBy(widths, parse))
  {
    var cur := specs;
    ghost var half := Half(|widths|);
    ghost var j := 0;
    assert widths[0..] == widths;
    var i := 0;
    while i < |widths|
      invariant 0 <= j <= half && i == 2 * j && |widths| == 2 * half
      invariant Placed(specs, PairsBy(widths, parse)) == Placed(cur, PairsBy(widths[i..], parse))
      decreases |widths| - i
    {
      assert i + 1 < |widths| by {
        assert j < half;
      }
      var name := Lower(widths[i]);
      var sp := parse(widths[i + 1]);
      PairsStep(widths, parse, i);
      if sp.Err? {
        return Err(sp.error);
      }
      PlacedStep(cur, (name, sp.value), PairsBy(widths[i + 2..], parse));
      cur := Assign(cur, name, sp.value);
      i, j := i + 2, j + 1;
    }
    assert widths[i..] == [];
    return Ok(cur);
  }

  lemma Half(n: nat) returns (h: nat)
    requires n % 2 == 0
    ensures n == 2 * h
  {
    h := n / 2;
  }

  /** The pairs from index `i` on: the pair at `i` followed by the rest, or
      the error of the span at `i + 1`. */
  lemma PairsStep(widths: seq<string>, parse: string -> Result<(int, int), SpssError>, i: nat)
    requires i + 1 < |widths|
    ensures parse(widths[i + 1]).Err? ==> PairsBy(widths[i..], parse) == Err(parse(widths[i + 1]).error)
    ensures parse(widths[i + 1]).Ok? ==> (PairsBy(widths[i..], parse) ==
      match PairsBy(widths[i + 2..], parse)
      case Ok(ps) => Ok([(Lower(widths[i]), parse(widths[i + 1]).value)] + ps)
      case Err(e) => Err(e))
  {
    var w := widths[i..];
    assert |w| >= 2 && w[0] == widths[i] && w[1] == widths[i + 1] && w[2..] == widths[i + 2..];
  }

  /** Assigning one pair and then the rest is assigning them all. */
  lemma PlacedStep(cur: ColSpecs, e: (string, (int, int)), rest: Result<seq<(string, (int, int))>, SpssError>)
    ensures Placed(cur, match rest case Ok(ps) => Ok([e] + ps) case Err(x) => Err(x))
         == Placed(Assign(cur, e.0, e.1), rest)
  {
    if rest.Ok? {
      assert ([e] + rest.value)[1..] == rest.value;
    }
  }

  /** The reader's state between lines: inside the widths block, stopped
      by `EXECUTE`, and the specs so far. */
  datatype FwfState = FwfState(inWidths: bool, stopped: bool, specs: ColSpecs)

  const FwfStart := FwfState(false, false, [])

  /** One line of `parse_fwfcols_spss`. */
  function FwfLine(st: FwfState, line: string): Result<FwfState, SpssError> {
    if StartsWith(line, "DATA LIST FILE") then Ok(st.(inWidths := true))
    else if st.inWidths && StartsWith(line, "EXECUTE") then Ok(st.(inWidths := false, stopped := true))
    else if st.inWidths then
      var widths := WidthTokens(line);
      if |widths| % 2 != 0 then Err(OddWidths(StripLine(line)))
      else
        match AddWidths(st.specs, widths)
        case Ok(d) => Ok(st.(specs := d))
        case Err(e) => Err(e)
    else Ok(st)
  }

  /** The lines read in order until `EXECUTE` or the first error. */
  function FwfRun(st: FwfState, lines: seq<string>): Result<FwfState, SpssError>
    decreases |lines|
  {
    if lines == [] || st.stopped then Ok(st)
    else
      match FwfLine(st, lines[0])
      case Err(e) => Err(e)
      case Ok(next) => FwfRun(next, lines[1..])
  }

  /** `parse_fwfcols_spss` over the file's lines, with `OrderedDict` bound. */
  function FwfCols(lines: seq<string>): Result<ColSpecs, SpssError> {
    match FwfRun(FwfStart, lines)
    case Ok(st) => Ok(st.specs)
    case Err(e) => Err(e)
  }

  /** `parse_fwfcols_spss`: the source's loop over the lines. */
  method ParseFwfColsSpss(lines: seq<string>) returns (r: Result<ColSpecs, SpssError>)
    ensures r == FwfCols(lines)
  {
    var specs: ColSpecs := [];
    var widthsFlag := false;
    var i := 0;
    while i < |lines|
      invariant 0 <= i <= |lines|
      invariant FwfRun(FwfStart, lines) == FwfRun(FwfState(widthsFlag, false, specs), lines[i..])
    {
      var line := lines[i];
      assert lines[i..][0] == line && lines[i..][1..] == lines[i + 1..];
      if StartsWith(line, "DATA LIST FILE") {
        widthsFlag := true;
      } else if widthsFlag && StartsWith(line, "EXECUTE") {
        widthsFlag := false;
        break;
      } else if widthsFlag {
        var widths := WidthTokens(line);
        if |widths| % 2 != 0 {
          return Err(OddWidths(StripLine(line)));
        }
        var added := AddWidthsLoop(specs, widths);
        if added.Err? {
          return Err(added.error);
        }
        specs := added.value;
      }
      i := i + 1;
    }
    return Ok(specs);
  }

  /** Every line before the first `DATA LIST FILE` is ignored. */
  lemma {:induction false} FwfSkipsPreamble(lines: seq<string>, k: nat)
    requires k <= |lines|
    requires forall j :: 0 <= j < k ==> !StartsWith(lines[j], "DATA LIST FILE")
    ensures FwfRun(FwfStart, lines) == FwfRun(FwfStart, lines[k..])
  {
    if k > 0 {
      assert FwfLine(FwfStart, lines[0]) == Ok(FwfStart);
      FwfSkipsPreamble(lines[1..], k - 1);
      assert lines[1..][k - 1..] == lines[k..];
    }
  }

  /** Inside the widths block, an `EXECUTE` line ends the reading: nothing
      after it is looked at. */
  lemma FwfStopsAtExecute(st: FwfState, line: string, rest: seq<string>)
    requires st.inWidths && !st.stopped && StartsWith(line, "EXECUTE")
    ensures FwfRun(st, [line] + rest) == Ok(st.(inWidths := false, stopped := true))
  {
    assert !StartsWith(line, "DATA LIST FILE") by {
      assert line[0] == 'E';
    }
    assert ([line] + rest)[1..] == rest;
  }

  /** A widths line with an odd number of tokens is an error. */
  lemma FwfOddWidths(st: FwfState, line: string, rest: seq<string>)
    requires st.inWidths && !st.stopped
    requires !StartsWith(line, "DATA LIST FILE") && !StartsWith(line, "EXECUTE")
    requires |WidthTokens(line)| % 2 == 1
    ensures FwfRun(st, [line] + rest) == Err(OddWidths(StripLine(line)))
  {
  }

  /** A widths line assigns each lowercased name the span of its last
      pair; names it does not mention keep their spans. */
  lemma AddWidthsLastWins(specs: ColSpecs, widths: seq<string>, name: string)
    requires Valid(specs) && |widths| % 2 == 0 && SpanPairs(widths).Ok?
    ensures AddWidths(specs, widths).Ok?
    ensures Get(AddWidths(specs, widths).value, name) ==
      if name in Keys(SpanPairs(widths).value) then LastValue(SpanPairs(widths).value, name)
      else Get(specs, name)
  {
    var ps := SpanPairs(widths).value;
    AssignAllFromPairs(specs, ps);
    FromPairsGet(specs + ps, name);
    LastValueAppend(specs, ps, name);
    ValidLastValue(specs, name);
    ValidLastValue(FromPairs(ps), name);
    FromPairsGet(ps, name);
    FromPairsKeys(ps);
  }

  /** Every span the reader stores starts at -1 or later and ends at 0 or
      later: no piece of a span can carry a minus sign. */
  predicate SpansInRange(specs: ColSpecs) {
    forall i :: 0 <= i < |specs| ==> specs[i].1.0 >= -1 && specs[i].1.1 >= 0
  }

  lemma SpansCons(e: (string, (int, int)), specs: ColSpecs)
    requires e.1.0 >= -1 && e.1.1 >= 0 && SpansInRange(specs)
    ensures SpansInRange([e] + specs)
  {
    forall i | 0 < i < |specs| + 1 ensures ([e] + specs)[i] == specs[i - 1] {}
  }

  lemma {:induction false} SpanPairsInRange(widths: seq<string>)
    requires SpanPairs(widths).Ok?
    ensures SpansInRange(SpanPairs(widths).value)
    decreases |widths|
  {
    if |widths| >= 2 {
      FieldSpanRange(widths[1]);
      SpanPairsInRange(widths[2..]);
      SpansCons((Lower(widths[0]), ParseFieldSpan(widths[1]).value), SpanPairs(widths[2..]).value);
    }
  }

  lemma FromPairsInRange(ps: ColSpecs)
    requires SpansInRange(ps)
    ensures SpansInRange(FromPairs(ps))
  {
    var r := FromPairs(ps);
    FromPairsEntries(ps);
    forall i | 0 <= i < |r| ensures r[i].1.0 >= -1 && r[i].1.1 >= 0 {
      assert r[i] in r;
      var j :| 0 <= j < |ps| && ps[j] == r[i];
    }
  }

  /** `parse_fwfcols_spss` as written: `OrderedDict` is never imported, so
      its first statement raises before any line is read. */
  function FwfColsAsWritten(lines: seq<string>): (r: Result<ColSpecs, SpssError>)
    ensures r == Err(NameError("OrderedDict"))
  {
    Err(NameError("OrderedDict"))
  }

  /** The response of one value-label line: the code and, after the first
      space, the label. */
  type Response = seq<string>

  /** `all(x[0].isdigit() for x in vals)`; true for no responses. Every
      response the reader builds has a code, so the first conjunct only
      makes the predicate total. */
  predicate AllCodesDigits(vals: seq<Response>) {
    forall i :: 0 <= i < |vals| ==> |vals[i]| >= 1 && IsDigits(vals[i][0])
  }

  /** One entry of `survey_vars`. */
  datatype SurveyVar = SurveyVar(question: string, responses: seq<Response>, isInteger: bool)

  type SurveyVars = Dict<string, SurveyVar>

  /** The reader's state between lines: the two block flags, the variable
      whose value labels are being read (`None`, or possibly empty text)
      and the labels read so far. */
  datatype SvState = SvState(
    inVars: bool, inVals: bool, cur: Option<string>, vals: seq<Response>, vars: SurveyVars)

  const SvStart := SvState(false, false, None, [], [])

  /** `not var`: no variable, or an empty name. */
  predicate NoVar(cur: Option<string>) {
    cur.None? || cur.value == ""
  }

  /** Saving the value labels into the current variable's entry. */
  function Close(st: SvState): (r: Result<SurveyVars, SpssError>)
    ensures r.Err? <==> st.cur.None? || st.cur.value !in Keys(st.vars)
    ensures r.Err? ==> r.error == KeyError(st.cur)
    ensures r.Ok? ==> Keys(r.value) == Keys(st.vars)
    ensures r.Ok? ==>
      Get(r.value, st.cur.value) == Some(SurveyVar(Get(st.vars, st.cur.value).value.question, st.vals, AllCodesDigits(st.vals)))
  {
    match st.cur
    case None => Err(KeyError(None))
    case Some(v) =>
      if v !in Keys(st.vars) then Err(KeyError(st.cur))
      else
        var e := Get(st.vars, v).value;
        Ok(Assign(st.vars, v, SurveyVar(e.question, st.vals, AllCodesDigits(st.vals))))
  }

  /** One line of `parse_surveyvars_spss`, branch by branch. */
  function SvLine(st: SvState, line: string): Result<SvState, SpssError>
  {
    if StartsWith(line, "VARIABLE LABELS") then Ok(st.(inVars := true))
    else if st.inVars && StripLine(line) == "" then Ok(st.(inVars := false))
    else if st.inVars then
      var parts := SplitOnce(StripLine(line), ' ');
      if |parts| != 2 then Err(BadLabel(StripLine(line)))
      else
        var v := Lower(parts[0]);
        Ok(st.(vars := Assign(st.vars, v, SurveyVar(parts[1], [], false)), cur := Some(v)))
    else if StartsWith(line, "VALUE LABELS") then
      Ok(st.(inVals := true, inVars := false, vals := [], cur := None))
    else if st.inVals && StartsWith(line, "/.") then
      match Close(st)
      case Err(e) => Err(e)
      case Ok(vs) => Ok(st.(vars := vs, cur := None, vals := [], inVals := false))
    else if st.inVals && Strip(line) == "/" then
      match Close(st)
      case Err(e) => Err(e)
      case Ok(vs) => Ok(st.(vars := vs, cur := None, vals := []))
    else if st.inVals && NoVar(st.cur) then Ok(st.(cur := Some(Lower(StripLine(line)))))
    else if st.inVals then Ok(st.(vals := st.vals + [SplitOnce(StripLine(line), ' ')]))
    else Ok(st)
  }

  function SvRun(st: SvState, lines: seq<string>): Result<SvState, SpssError>
    decreases |lines|
  {
    if lines == [] then Ok(st)
    else
      match SvLine(st, lines[0])
      case Err(e) => Err(e)
      case Ok(next) => SvRun(next, lines[1..])
  }

  /** `parse_surveyvars_spss` over the file's lines, with `OrderedDict`
      bound. */
  function SurveyVarsOf(lines: seq<string>): Result<SurveyVars, SpssError> {
    match SvRun(SvStart, lines)
    case Ok(st) => Ok(st.vars)
    case Err(e) => Err(e)
  }

  /** `parse_surveyvars_spss`: the source's loop over the lines. */
  method ParseSurveyVarsSpss(lines: seq<string>) returns (r: Result<SurveyVars, SpssError>)
    ensures r == SurveyVarsOf(lines)
  {
    var surveyVars: SurveyVars := [];
    var varsFlag, valsFlag := false, false;
    var cur: Option<string> := None;
    var vals: seq<Response> := [];
    var i := 0;
    while i < |lines|
      invariant 0 <= i <= |lines|
      invariant SvRun(SvStart, lines) == SvRun(SvState(varsFlag, valsFlag, cur, vals, surveyVars), lines[i..])
    {
      var line := lines[i];
      assert lines[i..][0] == line && lines[i..][1..] == lines[i + 1..];
      if StartsWith(line, "VARIABLE LABELS") {
        varsFlag := true;
      } else if varsFlag && StripLine(line) == "" {
        varsFlag := false;
      } else if varsFlag {
        var parts := SplitOnce(StripLine(line), ' ');
        if |parts| != 2 {
          return Err(BadLabel(StripLine(line)));
        }
        cur := Some(Lower(parts[0]));
        surveyVars := Assign(surveyVars, cur.value, SurveyVar(parts[1], [], false));
      } else if StartsWith(line, "VALUE LABELS") {
        valsFlag, varsFlag := true, false;
        vals, cur := [], None;
      } else if valsFlag && (StartsWith(line, "/.") || Strip(line) == "/") {
        var closed := Close(SvState(varsFlag, valsFlag, cur, vals, surveyVars));
        if closed.Err? {
          return Err(closed.error);
        }
        surveyVars := closed.value;
        cur, vals := None, [];
        if StartsWith(line, "/.") {
          valsFlag := false;
        }
      } else if valsFlag && NoVar(cur) {
        cur := Some(Lower(StripLine(line)));
      } else if valsFlag {
        vals := vals + [SplitOnce(StripLine(line), ' ')];
      }
      i := i + 1;
    }
    assert lines[i..] == [];
    return Ok(surveyVars);
  }

  /** A line of the `VARIABLE LABELS` block creates (or resets) the entry
      of its lowercased first token: the rest of the line is the question,
      with no responses yet. The token also becomes the current variable,
      because the reader and the value-label block share one `var`. */
  lemma VariableLabelEntry(st: SvState, line: string)
    requires st.inVars && !StartsWith(line, "VARIABLE LABELS")
    requires StripLine(line) != "" && ' ' in StripLine(line)
    ensures var parts := SplitOnce(StripLine(line), ' ');
      && SvLine(st, line).Ok?
      && Get(SvLine(st, line).value.vars, Lower(parts[0])) == Some(SurveyVar(parts[1], [], false))
      && SvLine(st, line).value.inVars
      && SvLine(st, line).value.cur == Some(Lower(parts[0]))
  {
  }

  /** `VALUE LABELS`, outside a variable-label block, opens a value block
      with no current variable and no labels. */
  lemma ValueBlockOpens(st: SvState, line: string)
    requires !st.inVars && StartsWith(line, "VALUE LABELS")
    ensures SvLine(st, line) == Ok(st.(inVals := true, vals := [], cur := None))
  {
    assert !StartsWith(line, "VARIABLE LABELS") by {
      assert line[..12] == "VALUE LABELS";
      assert line[2] == 'L' != "VARIABLE LABELS"[2];
    }
  }

  /** Inside a value block with no current variable, a line that neither
      opens a block nor closes one names the variable: its stripped,
      lowercased text. */
  lemma ValueBlockNames(st: SvState, line: string)
    requires !st.inVars && st.inVals && NoVar(st.cur)
    requires !StartsWith(line, "VARIABLE LABELS") && !StartsWith(line, "VALUE LABELS")
    requires !StartsWith(line, "/.") && Strip(line) != "/"
    ensures SvLine(st, line) == Ok(st.(cur := Some(Lower(StripLine(line)))))
  {
  }

  /** Once the variable is named, every such line appends its code and
      label, split at the first space. */
  lemma ValueBlockAppends(st: SvState, line: string)
    requires !st.inVars && st.inVals && !NoVar(st.cur)
    requires !StartsWith(line, "VARIABLE LABELS") && !StartsWith(line, "VALUE LABELS")
    requires !StartsWith(line, "/.") && Strip(line) != "/"
    ensures SvLine(st, line) == Ok(st.(vals := st.vals + [SplitOnce(StripLine(line), ' ')]))
  {
  }

  /** The whole new state after a variable label line: the entry is
      (re)set and its variable becomes current, so inside a value block the
      labels that follow the `VARIABLE LABELS` block are read as responses of
      the variable declared last, whatever variable the value block named. */
  lemma DeclarationStep(st: SvState, decl: string)
    requires st.inVars && !StartsWith(decl, "VARIABLE LABELS") && ' ' in StripLine(decl)
    ensures var parts := SplitOnce(StripLine(decl), ' ');
      SvLine(st, decl) == Ok(st.(
        vars := Assign(st.vars, Lower(parts[0]), SurveyVar(parts[1], [], false)),
        cur := Some(Lower(parts[0]))))
  {
  }

  /** The blank line that ends a `VARIABLE LABELS` block changes nothing
      else, the current variable included. */
  lemma BlankStep(st: SvState, blank: string)
    requires st.inVars && !StartsWith(blank, "VARIABLE LABELS") && StripLine(blank) == ""
    ensures SvLine(st, blank) == Ok(st.(inVars := false))
  {
  }

  /** `/.` saves the labels into the current variable and leaves the
      value-label block; `/` saves them and stays in it. Either way the
      next line names a new variable. */
  lemma CloseBlock(st: SvState, line: string)
    requires !st.inVars && st.inVals
    requires !StartsWith(line, "VARIABLE LABELS") && !StartsWith(line, "VALUE LABELS")
    requires StartsWith(line, "/.") || Strip(line) == "/"
    requires st.cur.Some? && st.cur.value in Keys(st.vars)
    ensures SvLine(st, line).Ok?
    ensures var next := SvLine(st, line).value;
      && next.cur.None? && next.vals == []
      && next.inVals == !StartsWith(line, "/.")
      && Keys(next.vars) == Keys(st.vars)
      && Get(next.vars, st.cur.value).value.responses == st.vals
      && Get(next.vars, st.cur.value).value.isInteger == AllCodesDigits(st.vals)
  {
  }

  /** Closing a block with no variable named, or one the labels never
      declared, raises `KeyError`. */
  lemma CloseUnknown(st: SvState, line: string)
    requires !st.inVars && st.inVals
    requires !StartsWith(line, "VARIABLE LABELS") && !StartsWith(line, "VALUE LABELS")
    requires StartsWith(line, "/.") || Strip(line) == "/"
    requires st.cur.None? || st.cur.value !in Keys(st.vars)
    ensures SvLine(st, line) == Err(KeyError(st.cur))
  {
  }

  /** A file without a `VALUE LABELS` line leaves every variable with no
      responses and `is_integer` false. */
  lemma {:induction false} NoValueLabels(st: SvState, lines: seq<string>)
    requires !st.inVals
    requires forall e :: e in st.vars ==> e.1.responses == [] && !e.1.isInteger
    requires forall j :: 0 <= j < |lines| ==> !StartsWith(lines[j], "VALUE LABELS")
    requires SvRun(st, lines).Ok?
    ensures forall e :: e in SvRun(st, lines).value.vars ==> e.1.responses == [] && !e.1.isInteger
    decreases |lines|
  {
    if lines != [] {
      var next := SvLine(st, lines[0]).value;
      assert !next.inVals;
      assert forall e :: e in next.vars ==> e.1.responses == [] && !e.1.isInteger by {
        if st.inVars && StripLine(lines[0]) != "" && !StartsWith(lines[0], "VARIABLE LABELS") {
          var parts := SplitOnce(StripLine(lines[0]), ' ');
          AssignEntries(st.vars, Lower(parts[0]), SurveyVar(parts[1], [], false));
        }
      }
      NoValueLabels(next, lines[1..]);
    }
  }

  /** `parse_surveyvars_spss` as written: `OrderedDict` is never imported. */
  function SurveyVarsAsWritten(lines: seq<string>): (r: Result<SurveyVars, SpssError>)
    ensures r == Err(NameError("OrderedDict"))
  {
    Err(NameError("OrderedDict"))
  }

  /** Both readers as written fail on every file, even the empty one that
      the intended readers accept. */
  lemma AsWrittenAlwaysFails(lines: seq<string>)
    ensures FwfColsAsWritten(lines).Err? && SurveyVarsAsWritten(lines).Err?
    ensures FwfCols([]) == Ok([]) && SurveyVarsOf([]) == Ok([])
  {
  }
}
