/** The SAS format-file readers of etl/sas.py. A SAS program is a text of
    `;`-terminated statements; `label` statements give question texts,
    `format` statements say which value format each variable uses, and
    `value` statements list a format's codes and their labels. Each reader
    is a pipeline of `filter`, `mapcat` and `map` ending in `dict`. */
module Sas {
  import opened Common
  import opened Text
  import opened Numbers
  import opened Dicts
  import opened Seqs

  /** The only exception the readers raise: indexing a list past its end
      (the text after `=` on a line without one, the second word of a
      one-word line). */
  datatype SasError = IndexError

  predicate IsQuote(c: char) { c == '"' || c == '\'' }

  /** `rqt.sub('', s)`: every single and double quote removed. */
  function Unquote(s: string): string {
    Remove(s, IsQuote)
  }

  /** A statement is of a kind when its stripped, lowercased text starts
      with the kind's keyword. */
  predicate IsStatement(x: string, keyword: string) {
    StartsWith(Lower(Strip(x)), keyword)
  }

  /** The statements of `txt` of one kind. */
  function Statements(txt: string, keyword: string): seq<string> {
    Filter(Split(txt, ';'), x => IsStatement(x, keyword))
  }

  // ---------------------------------------------------------------------
  // parse_questions

  /** One line of a `label` statement: the variable left of the first `=`
      and the quote-free text right of it, up to any second `=`. */
  function QuestionPair(line: string): (r: Result<(string, string), SasError>)
    ensures r.Err? <==> '=' !in line
  {
    if '=' !in line then Err(IndexError) else Ok((QuestionKey(line), QuestionText(line)))
  }

  /** The variable of a label line: left of the first `=`, stripped and
      lowercased. */
  function QuestionKey(line: string): string {
    Lower(Strip(Split(line, '=')[0]))
  }

  /** The text of a label line: between the first and any second `=`,
      stripped, without quotes. */
  function QuestionText(line: string): string
    requires '=' in line
  {
    Unquote(Strip(Split(line, '=')[1]))
  }

  /** A statement's lines, lowercased. */
  function LowerLines(x: string): seq<string> {
    Split(Lower(x), '\n')
  }

  /** The lines of the `label` statements, lowercased. */
  function LabelLines(txt: string): seq<string> {
    FlatMap(Statements(txt, "label"), LowerLines)
  }

  /** `parse_questions`: variable to question text, the last line for a
      variable winning. */
  function ParseQuestions(txt: string): (r: Result<Dict<string, string>, SasError>)
    ensures r.Ok? ==> Valid(r.value)
  {
    var ps :- Traverse(LabelLines(txt), QuestionPair);
    Ok(FromPairs(ps))
  }

  /** The reader fails exactly when a line of a `label` statement has no
      `=`. */
  lemma QuestionsFail(txt: string)
    ensures ParseQuestions(txt).Err? <==> exists line :: line in LabelLines(txt) && '=' !in line
  {
    assert ParseQuestions(txt).Err? <==> Traverse(LabelLines(txt), QuestionPair).Err?;
    QuestionLinesFail(LabelLines(txt));
  }

  lemma QuestionLinesFail(xs: seq<string>)
    ensures Traverse(xs, QuestionPair).Err? <==> exists x :: x in xs && '=' !in x
  {
    if Traverse(xs, QuestionPair).Err? {
      var x :| x in xs && QuestionPair(x).Err?;
    }
  }

  /** A variable has a question exactly when some label line names it ... */
  lemma QuestionKeys(txt: string, k: string)
    requires ParseQuestions(txt).Ok?
    ensures Get(ParseQuestions(txt).value, k).Some? <==>
      exists line :: line in LabelLines(txt) && QuestionKey(line) == k
  {
    var lines := LabelLines(txt);
    TraversedKeys(lines, QuestionPair, k);
    assert forall line :: line in lines ==> (KeyedBy(QuestionPair, line, k) <==> QuestionKey(line) == k);
  }

  /** ... and its question is the text of the last line naming it. */
  lemma QuestionLastLine(txt: string, k: string, v: string)
    requires ParseQuestions(txt).Ok?
    ensures var lines := LabelLines(txt);
      Get(ParseQuestions(txt).value, k) == Some(v) <==>
        exists i :: 0 <= i < |lines| && LastQuestionLine(lines, i, k, v)
  {
    QuestionLinesLast(LabelLines(txt), k, v);
  }

  /** `lines[i]` names `k` with text `v`, and no later line names `k`. */
  predicate LastQuestionLine(lines: seq<string>, i: nat, k: string, v: string)
    requires i < |lines|
  {
    && '=' in lines[i] && QuestionKey(lines[i]) == k && QuestionText(lines[i]) == v
    && forall j :: i < j < |lines| ==> QuestionKey(lines[j]) != k
  }

  lemma QuestionLinesLast(lines: seq<string>, k: string, v: string)
    requires Traverse(lines, QuestionPair).Ok?
    ensures Get(FromPairs(Traverse(lines, QuestionPair).value), k) == Some(v) <==>
      exists i :: 0 <= i < |lines| && LastQuestionLine(lines, i, k, v)
  {
    if Get(FromPairs(Traverse(lines, QuestionPair).value), k) == Some(v) {
      var i := QuestionFromLast(lines, k, v);
    }
    if exists i :: 0 <= i < |lines| && LastQuestionLine(lines, i, k, v) {
      var i :| 0 <= i < |lines| && LastQuestionLine(lines, i, k, v);
      LastQuestionFrom(lines, i, k, v);
    }
  }

  lemma QuestionFromLast(lines: seq<string>, k: string, v: string) returns (i: nat)
    requires Traverse(lines, QuestionPair).Ok?
    requires Get(FromPairs(Traverse(lines, QuestionPair).value), k) == Some(v)
    ensures i < |lines| && LastQuestionLine(lines, i, k, v)
  {
    TraversedLast(lines, QuestionPair, k, v);
    i :| 0 <= i < |lines| && QuestionPair(lines[i]) == Ok((k, v))
      && forall j :: i < j < |lines| ==> !KeyedBy(QuestionPair, lines[j], k);
    QuestionLineIsLast(lines, i, k, v);
  }

  lemma LastQuestionFrom(lines: seq<string>, i: nat, k: string, v: string)
    requires Traverse(lines, QuestionPair).Ok?
    requires i < |lines| && LastQuestionLine(lines, i, k, v)
    ensures Get(FromPairs(Traverse(lines, QuestionPair).value), k) == Some(v)
  {
    assert QuestionPair(lines[i]) == Ok((k, v));
    assert forall j :: i < j < |lines| ==> !KeyedBy(QuestionPair, lines[j], k) by {
      forall j | i < j < |lines| ensures !KeyedBy(QuestionPair, lines[j], k) {
        assert QuestionKey(lines[j]) != k;
      }
    }
    LastTraversed(lines, QuestionPair, k, v, i);
  }

  lemma QuestionLineIsLast(lines: seq<string>, i: nat, k: string, v: string)
    requires i < |lines| && QuestionPair(lines[i]) == Ok((k, v))
    requires forall x :: x in lines ==> QuestionPair(x).Ok?
    requires forall j :: i < j < |lines| ==> !KeyedBy(QuestionPair, lines[j], k)
    ensures LastQuestionLine(lines, i, k, v)
  {
    forall j | i < j < |lines| ensures QuestionKey(lines[j]) != k {
      assert lines[j] in lines;
      assert !KeyedBy(QuestionPair, lines[j], k);
    }
  }

  /** Every question text comes out lowercased, without quotes and without
      `=`; every variable name is lowercased. */
  lemma QuestionTexts(txt: string)
    requires ParseQuestions(txt).Ok?
    ensures forall e :: e in ParseQuestions(txt).value ==>
      Lower(e.0) == e.0 && forall c :: c in e.1 ==> !IsQuote(c) && c != '=' && !IsUpper(c)
  {
    LabelLinesLower(txt);
    QuestionLinesTexts(LabelLines(txt));
  }

  /** No label line has an uppercase letter. */
  lemma LabelLinesLower(txt: string)
    ensures forall line, c :: line in LabelLines(txt) && c in line ==> !IsUpper(c)
  {
    forall line, c | line in LabelLines(txt) && c in line ensures !IsUpper(c) {
      FlatMapFrom(Statements(txt, "label"), LowerLines, line);
      var x :| x in Statements(txt, "label") && line in LowerLines(x);
      SplitChars(Lower(x), '\n', line, c);
      LowerNoUpper(x);
    }
  }

  lemma QuestionLinesTexts(lines: seq<string>)
    requires forall line, c :: line in lines && c in line ==> !IsUpper(c)
    requires Traverse(lines, QuestionPair).Ok?
    ensures forall e :: e in FromPairs(Traverse(lines, QuestionPair).value) ==>
      Lower(e.0) == e.0 && forall c :: c in e.1 ==> !IsQuote(c) && c != '=' && !IsUpper(c)
  {
    var ps := Traverse(lines, QuestionPair).value;
    FromPairsEntries(ps);
    forall e | e in FromPairs(ps)
      ensures Lower(e.0) == e.0 && forall c :: c in e.1 ==> !IsQuote(c) && c != '=' && !IsUpper(c)
    {
      var i :| 0 <= i < |ps| && ps[i] == e;
      var line := lines[i];
      assert line in lines;
      var y := Split(line, '=');
      assert QuestionPair(line) == Ok(e);
      LowerIdempotent(Strip(y[0]));
      forall c | c in e.1 ensures !IsQuote(c) && c != '=' && !IsUpper(c) {
        assert c in y[1];
        assert y[1] in y;
        SplitChars(line, '=', y[1], c);
      }
    }
  }

  /** `x` reads as a pair keyed by `k`. */
  predicate KeyedBy<A, V, E>(f: A -> Result<(string, V), E>, x: A, k: string) {
    f(x).Ok? && f(x).value.0 == k
  }

  /** `dict(map(f, xs))` when every `f` succeeds: a key is present exactly
      when some element reads as a pair with that key ... */
  lemma TraversedKeys<A, V, E>(xs: seq<A>, f: A -> Result<(string, V), E>, k: string)
    requires Traverse(xs, f).Ok?
    ensures Get(FromPairs(Traverse(xs, f).value), k).Some? <==> exists x :: x in xs && KeyedBy(f, x, k)
  {
    var ps := Traverse(xs, f).value;
    FromPairsGet(ps, k);
    LastValueIn(ps, k);
    if LastValue(ps, k).Some? {
      var i :| 0 <= i < |ps| && ps[i] == (k, LastValue(ps, k).value);
      assert f(xs[i]) == Ok(ps[i]) && xs[i] in xs;
    }
    if exists x :: x in xs && KeyedBy(f, x, k) {
      var x :| x in xs && KeyedBy(f, x, k);
      var i :| 0 <= i < |xs| && xs[i] == x;
      assert f(xs[i]) == Ok(ps[i]);
      KeyOfPair(ps, k, ps[i].1);
    }
  }

  /** ... and its value is that of the last element keyed by it ... */
  lemma TraversedLast<A, V, E>(xs: seq<A>, f: A -> Result<(string, V), E>, k: string, v: V)
    requires Traverse(xs, f).Ok?
    requires Get(FromPairs(Traverse(xs, f).value), k) == Some(v)
    ensures exists i :: 0 <= i < |xs| && f(xs[i]) == Ok((k, v)) && forall j :: i < j < |xs| ==> !KeyedBy(f, xs[j], k)
  {
    var ps := Traverse(xs, f).value;
    FromPairsGet(ps, k);
    LastValueAt(ps, k);
    var i :| LastAt(ps, i, k) && ps[i].1 == v;
    assert f(xs[i]) == Ok(ps[i]);
    forall j | i < j < |xs| ensures !KeyedBy(f, xs[j], k) {
      assert f(xs[j]) == Ok(ps[j]);
    }
  }

  /** ... and only that. */
  lemma LastTraversed<A, V, E>(xs: seq<A>, f: A -> Result<(string, V), E>, k: string, v: V, i: nat)
    requires Traverse(xs, f).Ok?
    requires i < |xs| && f(xs[i]) == Ok((k, v)) && forall j :: i < j < |xs| ==> !KeyedBy(f, xs[j], k)
    ensures Get(FromPairs(Traverse(xs, f).value), k) == Some(v)
  {
    var ps := Traverse(xs, f).value;
    FromPairsGet(ps, k);
    assert f(xs[i]) == Ok(ps[i]);
    assert LastAt(ps, i, k) by {
      forall j | i < j < |ps| ensures ps[j].0 != k {
        assert f(xs[j]) == Ok(ps[j]);
      }
    }
    LastAtValue(ps, i, k);
  }

  // ---------------------------------------------------------------------
  // parse_format_assignments

  /** The `.`-separated segments of the `format` statements, lowercased. */
  function FormatSegments(txt: string): seq<string> {
    FlatMap(Statements(txt, "format"), LowerSegments)
  }

  function LowerSegments(x: string): seq<string> {
    Split(Lower(x), '.')
  }

  /** Each segment broken into its words. */
  function FormatWordLists(txt: string): seq<seq<string>> {
    Map(FormatSegments(txt), Tokens)
  }

  /** Every word of a list paired with the list's last word. */
  function LastPairs(y: seq<string>): seq<(string, string)> {
    seq(|y|, i requires 0 <= i < |y| => (y[i], y[|y| - 1]))
  }

  function FormatPairs(txt: string): seq<(string, string)> {
    FlatMap(FormatWordLists(txt), LastPairs)
  }

  /** `parse_format_assignments`: variable to format name. */
  function ParseFormatAssignments(txt: string): (r: Dict<string, string>)
    ensures Valid(r)
  {
    FromPairs(FormatPairs(txt))
  }

  /** `v` is the last word of `y` and `k` one of its words. */
  predicate PairedWithLast(y: seq<string>, k: string, v: string) {
    k in y && v == y[|y| - 1]
  }

  /** A word gets a format exactly when it is a word of some segment of a
      `format` statement (the keyword and the format name included) ... */
  lemma FormatAssigned(txt: string, k: string)
    ensures Get(ParseFormatAssignments(txt), k).Some? <==>
      exists y :: y in FormatWordLists(txt) && k in y
  {
    ListsAssigned(ParseFormatAssignments(txt), FormatWordLists(txt), k);
  }

  /** ... and the format it gets is the last word of such a segment. */
  lemma FormatAssignedValue(txt: string, k: string)
    requires Get(ParseFormatAssignments(txt), k).Some?
    ensures exists y :: y in FormatWordLists(txt) && PairedWithLast(y, k, Get(ParseFormatAssignments(txt), k).value)
  {
    AssignedFromList(ParseFormatAssignments(txt), FormatWordLists(txt), k);
  }

  /** The same over any word lists `ys` and the dict `d` built from their
      pairs. */
  lemma ListsAssigned(d: Dict<string, string>, ys: seq<seq<string>>, k: string)
    requires d == FromPairs(FlatMap(ys, LastPairs))
    ensures Get(d, k).Some? <==> exists y :: y in ys && k in y
  {
    if Get(d, k).Some? {
      AssignedFromList(d, ys, k);
    } else if exists y :: y in ys && k in y {
      var y :| y in ys && k in y;
      ListAssigns(ys, y, k);
    }
  }

  lemma AssignedFromList(d: Dict<string, string>, ys: seq<seq<string>>, k: string)
    requires d == FromPairs(FlatMap(ys, LastPairs))
    requires Get(d, k).Some?
    ensures exists y :: y in ys && PairedWithLast(y, k, Get(d, k).value)
  {
    var ps := FlatMap(ys, LastPairs);
    FromPairsGet(ps, k);
    LastValueIn(ps, k);
    ListOfPair(ys, k, LastValue(ps, k).value);
  }

  lemma ListAssigns(ys: seq<seq<string>>, y: seq<string>, k: string)
    requires y in ys && k in y
    ensures Get(FromPairs(FlatMap(ys, LastPairs)), k).Some?
  {
    var ps := FlatMap(ys, LastPairs);
    FromPairsGet(ps, k);
    LastValueIn(ps, k);
    PairOfList(ys, y, k);
  }

  lemma ListOfPair(ys: seq<seq<string>>, k: string, v: string)
    requires (k, v) in FlatMap(ys, LastPairs)
    ensures exists y :: y in ys && PairedWithLast(y, k, v)
  {
    FlatMapFrom(ys, LastPairs, (k, v));
    var y :| y in ys && (k, v) in LastPairs(y);
    LastPairsMembers(y, k, v);
  }

  lemma PairOfList(ys: seq<seq<string>>, y: seq<string>, k: string)
    requires y in ys && k in y
    ensures k in Keys(FlatMap(ys, LastPairs))
  {
    var v := y[|y| - 1];
    LastPairsMembers(y, k, v);
    FlatMapIn(ys, LastPairs, y, (k, v));
    KeyOfPair(FlatMap(ys, LastPairs), k, v);
  }

  /** A list pairs each of its words, and only those, with its last
      word. */
  lemma LastPairsMembers(y: seq<string>, k: string, v: string)
    ensures (k, v) in LastPairs(y) <==> PairedWithLast(y, k, v)
  {
    if (k, v) in LastPairs(y) {
      var i :| 0 <= i < |y| && LastPairs(y)[i] == (k, v);
      assert LastPairs(y)[i] == (y[i], y[|y| - 1]);
    }
    if k in y {
      var i :| 0 <= i < |y| && y[i] == k;
      assert LastPairs(y)[i] == (k, y[|y| - 1]);
    }
  }

  /** Of two statements assigning a variable, the later one wins. */
  lemma FormatLaterWins(txt: string, k: string)
    ensures Get(ParseFormatAssignments(txt), k) == LastValue(FormatPairs(txt), k)
  {
    FromPairsGet(FormatPairs(txt), k);
  }

  // ---------------------------------------------------------------------
  // replace_if_keyed and block2dict

  /** `replace_if_keyed(k, repl)` */
  function ReplaceIfKeyed(k: string, repl: map<string, string>): (r: string)
    ensures k in repl ==> r == repl[k]
    ensures k !in repl ==> r == k
  {
    if k in repl then repl[k] else k
  }

  /** The label characters `ruri` keeps: word characters, whitespace and
      `-_.'$+()/`. */
  predicate LabelChar(c: char) {
    IsWordChar(c) || IsSpace(c) || c in "-_.'$+()/"
  }

  /** One line of a `value` statement: `\x92` read as a quote, quotes
      removed, then the code left of `=` without any whitespace and the
      label right of it with only label characters. */
  function CodeLine(line: string): (r: Result<(string, string), SasError>)
    ensures r.Ok? ==> forall c :: c in r.value.0 ==> !IsSpace(c) && !IsQuote(c)
    ensures r.Ok? ==> forall c :: c in r.value.1 ==> LabelChar(c) && !IsQuote(c)
  {
    var text := Unquote(Strip(ReplaceAll(line, "\U{92}", "'")));
    var y := Split(text, '=');
    if |y| < 2 then Err(IndexError)
    else
      assert forall c :: c in y[0] ==> c in text by {
        assert y[0] in y;
        forall c | c in y[0] ensures c in text { SplitChars(text, '=', y[0], c); }
      }
      assert forall c :: c in y[1] ==> c in text by {
        assert y[1] in y;
        forall c | c in y[1] ensures c in text { SplitChars(text, '=', y[1], c); }
      }
      Ok((Remove(Strip(y[0]), IsSpace), Remove(Strip(y[1]), c => !LabelChar(c))))
  }

  /** A code without `-`: ranges are not supported. */
  predicate RangeFree(e: (string, string)) { '-' !in e.0 }

  predicate NumericCode(p: (string, string)) { IsDigits(p.0) }

  /** The comma-separated codes of one entry, each with the entry's label. */
  function CodesOf(e: (string, string)): seq<(string, string)> {
    var ys := Split(e.0, ',');
    seq(|ys|, i requires 0 <= i < |ys| => (ys[i], e.1))
  }

  /** Entries whose code has a `-` (a range) dropped, the rest split on
      commas. */
  function Codes(entries: seq<(string, string)>): seq<(string, string)> {
    FlatMap(Filter(entries, RangeFree), CodesOf)
  }

  /** A (code, label) pair comes out exactly when the code is a
      comma-separated piece of a range-free entry with that label. */
  lemma CodesMembers(entries: seq<(string, string)>, p: (string, string))
    ensures p in Codes(entries) <==>
      exists e :: e in entries && '-' !in e.0 && p.0 in Split(e.0, ',') && p.1 == e.1
  {
    if p in Codes(entries) {
      FlatMapFrom(Filter(entries, RangeFree), CodesOf, p);
      var e :| e in Filter(entries, RangeFree) && p in CodesOf(e);
      var i :| 0 <= i < |CodesOf(e)| && CodesOf(e)[i] == p;
      assert Split(e.0, ',')[i] == p.0;
    }
    if exists e :: e in entries && '-' !in e.0 && p.0 in Split(e.0, ',') && p.1 == e.1 {
      var e :| e in entries && '-' !in e.0 && p.0 in Split(e.0, ',') && p.1 == e.1;
      var ys := Split(e.0, ',');
      var i :| 0 <= i < |ys| && ys[i] == p.0;
      assert CodesOf(e)[i] == p;
      assert e in Filter(entries, RangeFree);
      FlatMapIn(Filter(entries, RangeFree), CodesOf, e, p);
    }
  }

  /** `"1,2" = "Yes"` gives codes 1 and 2 the same label; `"1-3"` gives
      none. */
  lemma CommaAndRange(lbl: string)
    ensures Codes([("1,2", lbl)]) == [("1", lbl), ("2", lbl)]
    ensures Codes([("1-3", lbl)]) == []
  {
    assert Join(["1", "2"], ',') == "1,2";
    SplitJoin(["1", "2"], ',');
    assert CodesOf(("1,2", lbl)) == [("1", lbl), ("2", lbl)];
    assert Filter([("1,2", lbl)], RangeFree) == [("1,2", lbl)];
    assert FlatMap([("1,2", lbl)], CodesOf) == CodesOf(("1,2", lbl)) + FlatMap([], CodesOf);
    assert "1-3"[1] == '-';
    assert Filter([("1-3", lbl)], RangeFree) == [];
  }

  /** The label a code gets: lowercased when asked, then replaced when
      `repl` has it. */
  function Label(text: string, repl: map<string, string>, toLower: bool): string {
    ReplaceIfKeyed(if toLower then Lower(text) else text, repl)
  }

  /** `int(code)` of a code that `isdigit()` accepts. */
  function CodeValue(code: string): int
    requires IsDigits(code)
  {
    assert forall k :: 0 <= k < |code| ==> IsDigitOf(code[k], 10);
    ValueOf(code, 10)
  }

  /** The numeric codes with their labels, before `dict`. */
  function NumericCodes(entries: seq<(string, string)>, repl: map<string, string>, toLower: bool)
    : seq<(int, string)>
  {
    var ps := Filter(Codes(entries), NumericCode);
    assert forall i :: 0 <= i < |ps| ==> NumericCode(ps[i]) by {
      forall i | 0 <= i < |ps| ensures NumericCode(ps[i]) { assert ps[i] in ps; }
    }
    seq(|ps|, i requires 0 <= i < |ps| => (CodeValue(ps[i].0), Label(ps[i].1, repl, toLower)))
  }

  /** `block2dict(lines, repl, to_lower)`: code to label. */
  function Block2Dict(lines: seq<string>, repl: map<string, string>, toLower: bool)
    : (r: Result<Dict<int, string>, SasError>)
    ensures r.Err? <==> exists l :: l in lines && CodeLine(l).Err?
    ensures r.Ok? ==> Valid(r.value)
  {
    var entries :- Traverse(lines, CodeLine);
    Ok(FromPairs(NumericCodes(entries, repl, toLower)))
  }

  /** Every entry of the block's dict is a numeric code piece of a
      range-free line, read as a number, with that line's label. */
  lemma Block2DictEntries(lines: seq<string>, repl: map<string, string>, toLower: bool)
    requires Block2Dict(lines, repl, toLower).Ok?
    ensures forall n, l :: (n, l) in Block2Dict(lines, repl, toLower).value ==>
      exists p :: p in Codes(Traverse(lines, CodeLine).value) && IsDigits(p.0)
        && n == CodeValue(p.0) && l == Label(p.1, repl, toLower)
  {
    var entries := Traverse(lines, CodeLine).value;
    forall n, l | (n, l) in Block2Dict(lines, repl, toLower).value
      ensures exists p :: p in Codes(entries) && IsDigits(p.0) && n == CodeValue(p.0) && l == Label(p.1, repl, toLower)
    {
      var ns := NumericCodes(entries, repl, toLower);
      FromPairsEntries(ns);
      NumericCodesMember(entries, repl, toLower, (n, l));
    }
  }

  lemma NumericCodesMember(entries: seq<(string, string)>, repl: map<string, string>, toLower: bool, e: (int, string))
    requires e in NumericCodes(entries, repl, toLower)
    ensures exists p :: p in Codes(entries) && IsDigits(p.0) && e.0 == CodeValue(p.0) && e.1 == Label(p.1, repl, toLower)
  {
    var ns := NumericCodes(entries, repl, toLower);
    var ps := Filter(Codes(entries), NumericCode);
    var i :| 0 <= i < |ns| && ns[i] == e;
    assert ps[i] in ps;
  }

  /** Every numeric code piece of a range-free line gets a label. */
  lemma Block2DictComplete(lines: seq<string>, repl: map<string, string>, toLower: bool, p: (string, string))
    requires Block2Dict(lines, repl, toLower).Ok?
    requires p in Codes(Traverse(lines, CodeLine).value) && IsDigits(p.0)
    ensures Get(Block2Dict(lines, repl, toLower).value, CodeValue(p.0)).Some?
  {
    NumericCodesComplete(Traverse(lines, CodeLine).value, repl, toLower, p);
  }

  lemma NumericCodesComplete(entries: seq<(string, string)>, repl: map<string, string>, toLower: bool, p: (string, string))
    requires p in Codes(entries) && IsDigits(p.0)
    ensures Get(FromPairs(NumericCodes(entries, repl, toLower)), CodeValue(p.0)).Some?
  {
    var ns := NumericCodes(entries, repl, toLower);
    var ps := Filter(Codes(entries), NumericCode);
    assert p in ps;
    var i :| 0 <= i < |ps| && ps[i] == p;
    assert ns[i] == (CodeValue(p.0), Label(p.1, repl, toLower));
    KeyOfPair(ns, ns[i].0, ns[i].1);
    FromPairsGet(ns, CodeValue(p.0));
    LastValueIn(ns, CodeValue(p.0));
  }

  // ---------------------------------------------------------------------
  // parse_variable_labels

  /** One `value` statement: the format name (its first line's second
      word, lowercased) and the dict of its other lines. */
  function ValueStatement(x: string, repl: map<string, string>, toLower: bool)
    : (r: Result<(string, Dict<int, string>), SasError>)
    ensures r.Ok? ==> Lower(r.value.0) == r.value.0
  {
    var ls := Split(Strip(x), '\n');
    var head := Tokens(ls[0]);
    if |head| < 2 then Err(IndexError)
    else
      var d :- Block2Dict(ls[1..], repl, toLower);
      LowerIdempotent(head[1]);
      Ok((Lower(head[1]), d))
  }

  /** `parse_variable_labels(txt, repl, lbls_to_lower)`: format name to
      its code labels. */
  function ParseVariableLabels(txt: string, repl: map<string, string>, toLower: bool)
    : (r: Result<Dict<string, Dict<int, string>>, SasError>)
    ensures r.Err? <==> exists x :: x in Statements(txt, "value") && ValueStatement(x, repl, toLower).Err?
    ensures r.Ok? ==> Valid(r.value)
  {
    var f := x => ValueStatement(x, repl, toLower);
    TraverseFails(Statements(txt, "value"), f);
    var ps :- Traverse(Statements(txt, "value"), f);
    Ok(FromPairs(ps))
  }

  /** Each format's labels are those of one of its `value` statements,
      under a lowercased name. */
  lemma VariableLabelsFrom(txt: string, repl: map<string, string>, toLower: bool)
    requires ParseVariableLabels(txt, repl, toLower).Ok?
    ensures forall e :: e in ParseVariableLabels(txt, repl, toLower).value ==>
      Lower(e.0) == e.0 && exists x :: x in Statements(txt, "value") && ValueStatement(x, repl, toLower) == Ok(e)
  {
    ValueStatementsFrom(Statements(txt, "value"), repl, toLower);
  }

  /** Every format named by a `value` statement gets labels ... */
  lemma VariableLabelsKeys(txt: string, repl: map<string, string>, toLower: bool, name: string)
    requires ParseVariableLabels(txt, repl, toLower).Ok?
    ensures Get(ParseVariableLabels(txt, repl, toLower).value, name).Some? <==>
      exists x :: x in Statements(txt, "value") && NamesFormat(x, repl, toLower, name)
  {
    var f := x => ValueStatement(x, repl, toLower);
    TraversedKeys(Statements(txt, "value"), f, name);
  }

  /** ... and they are those of the last statement naming it. */
  lemma VariableLabelsLast(txt: string, repl: map<string, string>, toLower: bool, name: string, d: Dict<int, string>)
    requires ParseVariableLabels(txt, repl, toLower).Ok?
    ensures var xs := Statements(txt, "value");
      Get(ParseVariableLabels(txt, repl, toLower).value, name) == Some(d) <==>
        exists i :: 0 <= i < |xs| && LastValueStatement(xs, i, repl, toLower, name, d)
  {
    var xs := Statements(txt, "value");
    if Get(ParseVariableLabels(txt, repl, toLower).value, name) == Some(d) {
      var i := FormatFromLast(xs, repl, toLower, name, d);
    }
    if exists i :: 0 <= i < |xs| && LastValueStatement(xs, i, repl, toLower, name, d) {
      var i :| 0 <= i < |xs| && LastValueStatement(xs, i, repl, toLower, name, d);
      LastFormatFrom(xs, i, repl, toLower, name, d);
    }
  }

  /** `xs[i]` gives the format `name` the labels `d`, and no later
      statement names `name`. */
  predicate LastValueStatement(xs: seq<string>, i: nat, repl: map<string, string>, toLower: bool, name: string, d: Dict<int, string>)
    requires i < |xs|
  {
    && ValueStatement(xs[i], repl, toLower) == Ok((name, d))
    && forall j :: i < j < |xs| ==> !NamesFormat(xs[j], repl, toLower, name)
  }

  lemma FormatFromLast(xs: seq<string>, repl: map<string, string>, toLower: bool, name: string, d: Dict<int, string>)
    returns (i: nat)
    requires Traverse(xs, x => ValueStatement(x, repl, toLower)).Ok?
    requires Get(FromPairs(Traverse(xs, x => ValueStatement(x, repl, toLower)).value), name) == Some(d)
    ensures i < |xs| && LastValueStatement(xs, i, repl, toLower, name, d)
  {
    var f := x => ValueStatement(x, repl, toLower);
    TraversedLast(xs, f, name, d);
    i :| 0 <= i < |xs| && f(xs[i]) == Ok((name, d)) && forall j :: i < j < |xs| ==> !KeyedBy(f, xs[j], name);
  }

  lemma LastFormatFrom(xs: seq<string>, i: nat, repl: map<string, string>, toLower: bool, name: string, d: Dict<int, string>)
    requires Traverse(xs, x => ValueStatement(x, repl, toLower)).Ok?
    requires i < |xs| && LastValueStatement(xs, i, repl, toLower, name, d)
    ensures Get(FromPairs(Traverse(xs, x => ValueStatement(x, repl, toLower)).value), name) == Some(d)
  {
    var f := x => ValueStatement(x, repl, toLower);
    LastTraversed(xs, f, name, d, i);
  }

  /** The statement `x` reads without error and names the format `name`. */
  predicate NamesFormat(x: string, repl: map<string, string>, toLower: bool, name: string) {
    ValueStatement(x, repl, toLower).Ok? && ValueStatement(x, repl, toLower).value.0 == name
  }

  lemma ValueStatementsFrom(xs: seq<string>, repl: map<string, string>, toLower: bool)
    requires Traverse(xs, x => ValueStatement(x, repl, toLower)).Ok?
    ensures forall e :: e in FromPairs(Traverse(xs, x => ValueStatement(x, repl, toLower)).value) ==>
      Lower(e.0) == e.0 && exists x :: x in xs && ValueStatement(x, repl, toLower) == Ok(e)
  {
    var ps := Traverse(xs, x => ValueStatement(x, repl, toLower)).value;
    FromPairsEntries(ps);
    forall e | e in FromPairs(ps)
      ensures Lower(e.0) == e.0 && exists x :: x in xs && ValueStatement(x, repl, toLower) == Ok(e)
    {
      var i :| 0 <= i < |ps| && ps[i] == e;
      assert ValueStatement(xs[i], repl, toLower) == Ok(e);
    }
  }

  // ---------------------------------------------------------------------
  // load_variable_labels

  /** `{k: labels[v] for k, v in assignments.items() if v in labels}` */
  function JoinLabels<L>(assignments: Dict<string, string>, labels: Dict<string, L>): Dict<string, L> {
    if assignments == [] then []
    else
      var (k, v) := assignments[0];
      (if Get(labels, v).Some? then [(k, Get(labels, v).value)] else []) + JoinLabels(assignments[1..], labels)
  }

  /** A variable has labels exactly when its format has them, and they are
      its format's labels. */
  lemma {:induction false} JoinLabelsGet<L>(assignments: Dict<string, string>, labels: Dict<string, L>, k: string)
    requires Valid(assignments)
    ensures Get(JoinLabels(assignments, labels), k) ==
      match Get(assignments, k)
      case Some(v) => Get(labels, v)
      case None => None
  {
    if assignments != [] {
      var (k0, v0) := assignments[0];
      var tail := assignments[1..];
      var rest := JoinLabels(tail, labels);
      ValidTail(assignments);
      JoinLabelsGet(tail, labels, k);
      assert assignments == [(k0, v0)] + tail;
      GetCons((k0, v0), tail, k);
      if Get(labels, v0).Some? {
        assert JoinLabels(assignments, labels) == [(k0, Get(labels, v0).value)] + rest;
        GetCons((k0, Get(labels, v0).value), rest, k);
      } else {
        assert JoinLabels(assignments, labels) == rest;
      }
    }
  }

  /** The joined entries keep the assignments' order and distinct keys. */
  lemma {:induction false} JoinLabelsValid<L>(assignments: Dict<string, string>, labels: Dict<string, L>)
    requires Valid(assignments)
    ensures Valid(JoinLabels(assignments, labels))
    ensures forall k :: k in Keys(JoinLabels(assignments, labels)) ==> k in Keys(assignments)
  {
    if assignments != [] {
      var (k0, v0) := assignments[0];
      var tail := assignments[1..];
      ValidTail(assignments);
      JoinLabelsValid(tail, labels);
      var rest := JoinLabels(tail, labels);
      if Get(labels, v0).Some? {
        KeysCons((k0, Get(labels, v0).value), rest);
        DistinctCons(k0, Keys(rest));
      }
    }
  }

  /** `load_variable_labels` on the texts of the two files. */
  function LoadVariableLabels(formatText: string, formasText: string, repl: map<string, string>)
    : (r: Result<Dict<string, Dict<int, string>>, SasError>)
    ensures r.Err? <==> ParseVariableLabels(formatText, repl, true).Err?
  {
    var labels :- ParseVariableLabels(formatText, repl, true);
    Ok(JoinLabels(ParseFormatAssignments(formasText), labels))
  }

  /** The loaded labels are a dict keyed by variables that have a format
      assignment, each with its format's labels. */
  lemma LoadedLabels(formatText: string, formasText: string, repl: map<string, string>, k: string)
    requires LoadVariableLabels(formatText, formasText, repl).Ok?
    ensures Valid(LoadVariableLabels(formatText, formasText, repl).value)
    ensures Get(LoadVariableLabels(formatText, formasText, repl).value, k) ==
      match Get(ParseFormatAssignments(formasText), k)
      case Some(f) => Get(ParseVariableLabels(formatText, repl, true).value, f)
      case None => None
  {
    var labels := ParseVariableLabels(formatText, repl, true).value;
    JoinLabelsValid(ParseFormatAssignments(formasText), labels);
    JoinLabelsGet(ParseFormatAssignments(formasText), labels, k);
  }

  // ---------------------------------------------------------------------
  // load_sas_xport_df

  /** The reader format `load_sas_xport_df` asks for. */
  function XportFormat(url: string): (f: string)
    ensures f == "sas7bdat" || f == "xport"
  {
    if Contains(url, "sas7bdat") then "sas7bdat" else "xport"
  }

  lemma {:induction false} ContainsSuffix(p: string, s: string)
    ensures Contains(p + s, s)
    decreases |p|
  {
    if p == [] {
      assert p + s == s && s[..|s|] == s;
    } else {
      ContainsSuffix(p[1..], s);
      assert (p + s)[1..] == p[1..] + s;
    }
  }

  lemma {:induction false} NotContains(s: string, sub: string)
    requires |sub| > 0 && sub[0] !in s
    ensures !Contains(s, sub)
    decreases |s|
  {
    if |s| > 0 {
      assert s[0] in s;
      assert forall c :: c in s[1..] ==> c in s;
      NotContains(s[1..], sub);
    }
  }

  /** A `.sas7bdat` file is read as one; a url without an `s` is read as
      XPORT. */
  lemma XportFormatChoice(path: string, url: string)
    ensures XportFormat(path + ".sas7bdat") == "sas7bdat"
    ensures 's' !in url ==> XportFormat(url) == "xport"
  {
    assert path + ".sas7bdat" == (path + ".") + "sas7bdat";
    ContainsSuffix(path + ".", "sas7bdat");
    if 's' !in url {
      NotContains(url, "sas7bdat");
    }
  }

  /** `df.columns = [x.lower() for x in df.columns]` */
  function LowerColumns(cols: seq<string>): (r: seq<string>)
    ensures |r| == |cols|
    ensures forall i :: 0 <= i < |cols| ==> r[i] == Lower(cols[i]) && forall c :: c in r[i] ==> !IsUpper(c)
  {
    seq(|cols|, i requires 0 <= i < |cols| => Lower(cols[i]))
  }

  /** Lowercasing the columns of a frame whose columns are lowercased
      changes nothing. */
  lemma LowerColumnsIdempotent(cols: seq<string>)
    ensures LowerColumns(LowerColumns(cols)) == LowerColumns(cols)
  {
    forall i | 0 <= i < |cols| ensures Lower(Lower(cols[i])) == Lower(cols[i]) {
      LowerIdempotent(cols[i]);
    }
  }
}
