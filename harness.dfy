/** The request logic of test_harness.py, the standalone service over one
    national survey design: the stack of variable prefixes `fetch_stats`
    walks, the survey formula it builds, the question-code normalisation
    of `fetch_qn_meta`, the two error classes and their JSON bodies, and
    the argument defaults and key lookups of the `/national` route. The
    statistics are computed by the R `survey` package; here each block of
    results is the request for it. */
module Harness {
  import opened Common
  import opened Text
  import opened Numbers
  import opened Dicts
  import opened Datasets
  import opened Spss

  // ---------------------------------------------------------------------
  // fetch_stats

  /** The survey formula for a question: `~qn`, or `~!qn` for the other
      response. */
  function QuestionFormula(qn: string, response: bool): (f: string)
    ensures |f| == |qn| + (if response then 1 else 2)
    ensures f[0] == '~' && f[|f| - |qn|..] == qn
    ensures !response ==> f[1] == '!'
  {
    "~" + (if response then "" else "!") + qn
  }

  /** The formula gives back its question and response, unless the
      question code itself starts with `!`. */
  lemma QuestionFormulaDecodes(qn: string, response: bool)
    requires qn == [] || qn[0] != '!'
    ensures var f := QuestionFormula(qn, response);
      && (response <==> |f| < 2 || f[1] != '!')
      && f[if response then 1 else 2..] == qn
  {
    var f := QuestionFormula(qn, response);
    if response && |f| >= 2 {
      assert f[1] == qn[0];
    }
  }

  /** `' + '.join(vs)` */
  function JoinPlus(vs: seq<string>): string
    requires |vs| >= 1
  {
    if |vs| == 1 then vs[0] else vs[0] + " + " + JoinPlus(vs[1..])
  }

  /** One block of `fetch_stats` results: the overall estimate (level 0),
      or the estimates grouped by the variables `vars`, tagged with the
      level, the question and the response. */
  datatype StatsBlock =
    | Total(formula: string)
    | ByPrefix(vars: seq<string>, level: nat, q: string, qResp: bool, formula: string, byFormula: string)

  function GroupBlock(vs: seq<string>, qn: string, response: bool): StatsBlock
    requires |vs| >= 1
  {
    ByPrefix(vs, |vs|, qn, response, QuestionFormula(qn, response), "~" + JoinPlus(vs))
  }

  /** What `fetch_stats(des, qn, response, vars)` returns: the total first,
      then one block for each prefix of `vars`, longest first. */
  function StatsBlocks(qn: string, response: bool, vars: seq<string>): (bs: seq<StatsBlock>)
    ensures |bs| == |vars| + 1
    ensures bs[0] == Total(QuestionFormula(qn, response))
    ensures forall k :: 1 <= k <= |vars| ==>
      && bs[k].ByPrefix?
      && bs[k].level == |vars| - k + 1
      && bs[k].vars == vars[..bs[k].level]
      && bs[k].q == qn && bs[k].qResp == response
      && bs[k].formula == QuestionFormula(qn, response)
    ensures forall k, l :: 1 <= k < l <= |vars| ==> bs[k].level > bs[l].level
  {
    [Total(QuestionFormula(qn, response))]
      + seq(|vars|, i requires 0 <= i < |vars| => GroupBlock(vars[..|vars| - i], qn, response))
  }

  /** A Python list that is popped in place. */
  class StrList {
    var items: seq<string>

    /** `xs[:]` */
    constructor Copy(xs: seq<string>)
      ensures items == xs
    {
      items := xs;
    }

    /** `l.pop()`: drops the last item. */
    method Pop()
      requires |items| > 0
      modifies this
      ensures items == old(items)[..|old(items)| - 1]
    {
      items := items[..|items| - 1];
    }
  }

  /** `fetch_stats`: the total, then the blocks for a copy of `vars`
      popped one variable at a time. The caller's list is only read. */
  method FetchStats(qn: string, response: bool, vars: StrList) returns (res: seq<StatsBlock>)
    ensures res == StatsBlocks(qn, response, vars.items)
  {
    var all := StatsBlocks(qn, response, vars.items);
    res := [Total(QuestionFormula(qn, response))];
    var vstack := new StrList.Copy(vars.items);
    while |vstack.items| > 0
      invariant |vstack.items| <= |vars.items| && vstack.items == vars.items[..|vstack.items|]
      invariant res == all[..|vars.items| - |vstack.items| + 1]
      decreases |vstack.items|
    {
      var k := |vars.items| - |vstack.items| + 1;
      assert all[k] == GroupBlock(vstack.items, qn, response);
      assert all[..k + 1] == all[..k] + [all[k]];
      res := res + [GroupBlock(vstack.items, qn, response)];
      vstack.Pop();
    }
    assert all[..|vars.items| + 1] == all;
  }

  /** The harness walks the prefixes in the opposite order to
      `generate_slices`, and puts the total first where `generate_slices`
      puts it last. */
  lemma PrefixOrderReversed(d: string, qn: string, r: string, f: FilterDict, vars: seq<string>, response: bool)
    ensures var bs, ss := StatsBlocks(qn, response, vars), ForResponse(d, qn, r, f, vars);
      && bs[0].Total? && ss[|vars|].vs == []
      && forall j :: 0 <= j < |vars| ==> bs[|vars| - j].vars == ss[j].vs
  {
    var bs, ss := StatsBlocks(qn, response, vars), ForResponse(d, qn, r, f, vars);
    forall j | 0 <= j < |vars| ensures bs[|vars| - j].vars == ss[j].vs {
      assert ss[j] == SliceAt(d, qn, r, f, vars, j);
    }
  }

  // ---------------------------------------------------------------------
  // fetch_qn_meta

  /** The question-code rule of `fetch_qn_meta`: a code starting with `H`
      has every `H` replaced by `qn` and keeps its case; any other code is
      lowercased. `None` is the `IndexError` of `k[0]` on an empty code. */
  function NormalizeCode(k: string): (r: Option<string>)
    ensures r.None? <==> k == []
    ensures r.Some? && k[0] == 'H' ==> r.value == "qn" + ReplaceChar(k[1..], 'H', "qn")
    ensures r.Some? && k[0] == 'H' ==> 'H' !in r.value && forall c :: c != 'H' && c in k ==> c in r.value
    ensures r.Some? && k[0] != 'H' ==> r.value == Lower(k) && forall c :: c in r.value ==> !IsUpper(c)
  {
    if k == [] then None
    else if k[0] == 'H' then
      assert k[..1] == "H";
      assert ReplaceAll(k, "H", "qn") == "qn" + ReplaceAll(k[1..], "H", "qn");
      ReplaceAllChar(k[1..], 'H', "qn");
      assert k == [k[0]] + k[1..];
      Some(ReplaceAll(k, "H", "qn"))
    else
      LowerNoUpper(k);
      Some(Lower(k))
  }

  /** Only the `H` is rewritten: `HA` becomes `qnA`, not `qna`. */
  lemma NormalizeKeepsCase()
    ensures NormalizeCode("HA") == Some("qnA")
    ensures NormalizeCode("QA") == Some("qa")
  {
    assert "HA"[..1] == "H" && "HA"[1..] == "A";
    assert "A"[..1] == "A" && "A"[1..] == "";
    assert ReplaceAll("A", "H", "qn") == "A" + ReplaceAll("", "H", "qn") == "A";
    assert ReplaceAll("HA", "H", "qn") == "qn" + ReplaceAll("A", "H", "qn") == "qnA";
    assert "HA"[0] == 'H' && "QA"[0] != 'H';
    assert Lower("QA") == "qa";
  }

  // ---------------------------------------------------------------------
  // InvalidUsage and ComputationError

  /** A JSON value of an error payload. */
  datatype Value = VStr(s: string) | VInt(i: int)

  datatype HttpError =
    | InvalidUsage(message: string, statusCode: int, payload: Option<Dict<string, Value>>)
    | ComputationError(message: string, statusCode: int, payload: Option<Dict<string, Value>>)

  /** `InvalidUsage(message, status_code=400, payload=None)` */
  function NewInvalidUsage(message: string, statusCode: int := 400, payload: Option<Dict<string, Value>> := None)
    : (e: HttpError)
    ensures e.InvalidUsage? && e.message == message && e.statusCode == statusCode && e.payload == payload
  {
    InvalidUsage(message, statusCode, payload)
  }

  /** `ComputationError(message, status_code=500, payload=None)` */
  function NewComputationError(message: string, statusCode: int := 500, payload: Option<Dict<string, Value>> := None)
    : (e: HttpError)
    ensures e.ComputationError? && e.message == message && e.statusCode == statusCode && e.payload == payload
  {
    ComputationError(message, statusCode, payload)
  }

  /** `dict(self.payload or ())` */
  function PayloadDict(p: Option<Dict<string, Value>>): Dict<string, Value> {
    if p.Some? then FromPairs(p.value) else []
  }

  /** `to_dict()`: the payload's entries with `message` set, and for a
      computation error `status_code` set too; these override payload
      entries of the same name, and every other payload entry is kept. */
  function ToDict(e: HttpError): (r: Dict<string, Value>)
    ensures Valid(r)
    ensures Get(r, "message") == Some(VStr(e.message))
    ensures e.ComputationError? ==> Get(r, "status_code") == Some(VInt(e.statusCode))
    ensures forall k :: k != "message" && (e.ComputationError? ==> k != "status_code") ==>
      Get(r, k) == Get(PayloadDict(e.payload), k)
  {
    var base := PayloadDict(e.payload);
    AssignValid(base, "message", VStr(e.message));
    var rv := Assign(base, "message", VStr(e.message));
    if e.ComputationError? then
      AssignValid(rv, "status_code", VInt(e.statusCode));
      Assign(rv, "status_code", VInt(e.statusCode))
    else rv
  }

  /** The payload entries come from the payload's pairs, the last pair for
      a key winning. */
  lemma ToDictPayload(e: HttpError, k: string)
    requires k != "message" && k != "status_code" && e.payload.Some?
    ensures Get(ToDict(e), k) == LastValue(e.payload.value, k)
  {
    FromPairsGet(e.payload.value, k);
  }

  /** The error handlers: the error's status code with its `to_dict()` as
      the JSON body. */
  function Respond(e: HttpError): (r: (int, Dict<string, Value>))
    ensures r.0 == e.statusCode && Get(r.1, "message") == Some(VStr(e.message))
  {
    (e.statusCode, ToDict(e))
  }

  /** Without a status code the two errors answer 400 and 500. */
  lemma DefaultStatus(message: string)
    ensures Respond(NewInvalidUsage(message)).0 == 400
    ensures Respond(NewComputationError(message)).0 == 500
    ensures Get(Respond(NewComputationError(message)).1, "status_code") == Some(VInt(500))
  {
  }

  // ---------------------------------------------------------------------
  // fetch_national

  /** The reply of `/national`; `results` are the blocks `fetch_stats`
      asks the survey engine for. */
  datatype NationalReply = NationalReply(
    q: string, question: string, response: bool, vars: seq<string>,
    varLevels: Dict<string, SurveyVar>, results: seq<StatsBlock>)

  /** `int(r)` raising outside the `try` (an unhandled `ValueError`), or
      one of the two errors the route raises. */
  datatype NationalFailure = Unhandled | Raised(error: HttpError)

  /** `str(KeyError(k))`: the key's `repr`. */
  function KeyText(k: Option<string>): string {
    if k.Some? then "'" + k.value + "'" else "None"
  }

  /** `vars`: `[]` without `v`, else `v` split on commas. */
  function NationalVars(args: map<string, string>): (vs: seq<string>)
    ensures "v" !in args ==> vs == []
    ensures "v" in args ==> |vs| >= 1 && Join(vs, ',') == args["v"]
  {
    if "v" !in args then [] else Split(args["v"], ',')
  }

  /** `resp`: `True` without `r`, else whether `int(r)` is positive; `None`
      when `int(r)` raises. */
  function NationalResponse(args: map<string, string>): (r: Option<bool>)
    ensures "r" !in args ==> r == Some(true)
    ensures "r" in args ==> (r.None? <==> ParseInt(args["r"], 10).None?)
    ensures "r" in args && r.Some? ==> (r.value <==> ParseInt(args["r"], 10).value > 0)
  {
    if "r" !in args then Some(true)
    else
      match ParseInt(args["r"], 10)
      case None => None
      case Some(n) => Some(n > 0)
  }

  /** The first of `vars` that is not a survey variable. */
  function FirstMissing(vars: seq<string>, svyVars: Dict<string, SurveyVar>): (i: nat)
    ensures i <= |vars|
    ensures forall j :: 0 <= j < i ==> vars[j] in Keys(svyVars)
    ensures i < |vars| ==> vars[i] !in Keys(svyVars)
  {
    if vars == [] || vars[0] !in Keys(svyVars) then 0
    else 1 + FirstMissing(vars[1..], svyVars)
  }

  /** The `(v, svy_vars[v])` pairs of `var_levels`. */
  function LevelPairs(vars: seq<string>, svyVars: Dict<string, SurveyVar>): seq<(string, SurveyVar)>
    requires forall i :: 0 <= i < |vars| ==> vars[i] in Keys(svyVars)
  {
    if vars == [] then []
    else LevelPairs(vars[..|vars| - 1], svyVars) + [(vars[|vars| - 1], Get(svyVars, vars[|vars| - 1]).value)]
  }

  /** `{v: svy_vars[v] for v in vars}` holds each variable's own entry. */
  lemma {:induction false} LevelPairsLast(vars: seq<string>, svyVars: Dict<string, SurveyVar>, v: string)
    requires forall i :: 0 <= i < |vars| ==> vars[i] in Keys(svyVars)
    requires v in vars
    ensures LastValue(LevelPairs(vars, svyVars), v) == Get(svyVars, v)
  {
    var n := |vars|;
    if vars[n - 1] != v {
      assert v in vars[..n - 1];
      LevelPairsLast(vars[..n - 1], svyVars, v);
    }
  }

  /** `req.args.get('q')` */
  function QueryArg(args: map<string, string>): (qn: Option<string>)
    ensures qn.Some? <==> "q" in args
    ensures qn.Some? ==> qn.value == args["q"]
  {
    if "q" in args then Some(args["q"]) else None
  }

  /** The key of the first `svy_vars` lookup that raises `KeyError`: the
      question first, then the variables in order; `None` when every
      lookup succeeds. */
  function MissingKey(qn: Option<string>, vars: seq<string>, svyVars: Dict<string, SurveyVar>)
    : (k: Option<Option<string>>)
    ensures k.None? <==> qn.Some? && qn.value in Keys(svyVars) && forall v :: v in vars ==> v in Keys(svyVars)
    ensures qn.None? || qn.value !in Keys(svyVars) ==> k == Some(qn)
    ensures k.Some? && qn.Some? && qn.value in Keys(svyVars) ==>
      k.value.Some? && k.value.value in vars && k.value.value !in Keys(svyVars)
  {
    if qn.None? || qn.value !in Keys(svyVars) then Some(qn)
    else
      var i := FirstMissing(vars, svyVars);
      if i < |vars| then Some(Some(vars[i])) else None
  }

  /** The reply once every lookup has succeeded. */
  function NationalOk(qn: string, resp: bool, vars: seq<string>, svyVars: Dict<string, SurveyVar>)
    : (r: NationalReply)
    requires qn in Keys(svyVars) && forall v :: v in vars ==> v in Keys(svyVars)
    ensures r.q == qn && r.response == resp && r.vars == vars
    ensures Get(svyVars, qn) == Some(SurveyVar(r.question, Get(svyVars, qn).value.responses, Get(svyVars, qn).value.isInteger))
    ensures r.results == StatsBlocks(qn, resp, vars)
    ensures Valid(r.varLevels) && forall v :: v in vars ==> Get(r.varLevels, v) == Get(svyVars, v)
  {
    assert forall i :: 0 <= i < |vars| ==> vars[i] in Keys(svyVars) by {
      forall i | 0 <= i < |vars| ensures vars[i] in Keys(svyVars) {
        assert vars[i] in vars;
      }
    }
    var levels := FromPairs(LevelPairs(vars, svyVars));
    assert forall v :: v in vars ==> Get(levels, v) == Get(svyVars, v) by {
      forall v | v in vars ensures Get(levels, v) == Get(svyVars, v) {
        FromPairsGet(LevelPairs(vars, svyVars), v);
        LevelPairsLast(vars, svyVars, v);
      }
    }
    NationalReply(qn, Get(svyVars, qn).value.question, resp, vars, levels, StatsBlocks(qn, resp, vars))
  }

  /** `fetch_national` over the query arguments and the survey variables
      read from the SPSS syntax file: `int(r)` raising escapes the
      handler, a missing key becomes a 400 `InvalidUsage` naming the key,
      and otherwise the reply is built. */
  function FetchNational(args: map<string, string>, svyVars: Dict<string, SurveyVar>)
    : (r: Result<NationalReply, NationalFailure>)
    ensures r == Err(Unhandled) <==> NationalResponse(args).None?
    ensures r.Ok? <==> NationalResponse(args).Some? && MissingKey(QueryArg(args), NationalVars(args), svyVars).None?
    ensures r.Err? && r.error.Raised? ==>
      && MissingKey(QueryArg(args), NationalVars(args), svyVars).Some?
      && r.error.error == NewInvalidUsage("KeyError: " + KeyText(MissingKey(QueryArg(args), NationalVars(args), svyVars).value))
      && r.error.error.statusCode == 400
    ensures r.Ok? ==>
      && Some(r.value.response) == NationalResponse(args)
      && r.value == NationalOk(args["q"], r.value.response, NationalVars(args), svyVars)
  {
    match NationalResponse(args)
    case None => Err(Unhandled)
    case Some(resp) =>
      var vars := NationalVars(args);
      match MissingKey(QueryArg(args), vars, svyVars)
      case Some(k) => Err(Raised(NewInvalidUsage("KeyError: " + KeyText(k))))
      case None => Ok(NationalOk(args["q"], resp, vars, svyVars))
  }
}
