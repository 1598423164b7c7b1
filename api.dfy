/** The request layer of api.py: the parsers of the `/stats` query
    arguments, the binary `s` flag, the slice list handed to the fetch
    fan-out and the `/stats` handler up to its JSON reply. The survey
    engine, the configuration remapper and the asynchronous fetch are
    parameters. */
module Api {
  import opened Common
  import opened Text
  import opened Numbers
  import opened Dicts
  import opened Seqs

  /** The exceptions the handler can raise, by cause. */
  datatype ApiError =
    | IndexError                      // a filter part without ':'
    | InvalidResponse                 // `parse_response` on another word
    | ValueError                      // `int(s, 2)` on text that is not binary
    | ZeroDivision                    // `0 ** n` for negative `n`
    | NameError(name: string)         // a name the module never binds
    | EmptyFilter(filt: Filter)       // the sample-size gate
    | KeyError(key: Option<string>)   // a missing dataset, question or variable (`None` for Python's None)

  /** A filter: column name to the values kept. */
  type Filter = Dict<string, seq<string>>

  /** One `'|'`-part of the filter argument: the text before the first
      `':'`, and the second `':'`-segment split on `','`. Anything from a
      second `':'` on is dropped. */
  function FilterPair(part: string): (kv: (string, seq<string>))
    requires ':' in part
    ensures ':' !in kv.0 && StartsWith(part, kv.0 + ":")
    ensures |kv.1| >= 1 && forall v :: v in kv.1 ==> ',' !in v && ':' !in v
    ensures StartsWith(part, kv.0 + ":" + Join(kv.1, ','))
    ensures var n := |kv.0| + 1 + |Join(kv.1, ',')|; n < |part| ==> part[n] == ':'
  {
    var pieces := Split(part, ':');
    var vals := Split(pieces[1], ',');
    assert pieces[1] in pieces;
    forall v | v in vals ensures ':' !in v {
      if ':' in v {
        JoinChars(vals, ',', v, ':');
      }
    }
    assert Join(pieces[1..], ':') == pieces[1] + (if |pieces| > 2 then [':'] + Join(pieces[2..], ':') else []);
    assert part == pieces[0] + [':'] + pieces[1] + (if |pieces| > 2 then [':'] + Join(pieces[2..], ':') else []);
    assert pieces[0] + ":" == pieces[0] + [':'];
    (pieces[0], vals)
  }

  predicate AllHaveColon(parts: seq<string>) {
    forall i :: 0 <= i < |parts| ==> ':' in parts[i]
  }

  function FilterPairs(parts: seq<string>): (ps: seq<(string, seq<string>)>)
    requires AllHaveColon(parts)
    ensures |ps| == |parts| && forall i :: 0 <= i < |parts| ==> ps[i] == FilterPair(parts[i])
  {
    seq(|parts|, i requires 0 <= i < |parts| => FilterPair(parts[i]))
  }

  /** `parse_filter(f)`: `dict` over the pairs of the `'|'`-parts. */
  function ParseFilter(f: string): (r: Result<Filter, ApiError>)
    ensures r.Err? <==> !AllHaveColon(Split(f, '|'))
    ensures r.Err? ==> r.error == IndexError
    ensures r.Ok? ==> Valid(r.value)
  {
    var parts := Split(f, '|');
    if AllHaveColon(parts) then Ok(FromPairs(FilterPairs(parts))) else Err(IndexError)
  }

  /** Each key of the parsed filter carries the values of its last part;
      the keys are in order of first appearance. */
  lemma ParseFilterLastWins(f: string, k: string)
    requires ParseFilter(f).Ok?
    ensures AllHaveColon(Split(f, '|'))
    ensures Get(ParseFilter(f).value, k) == LastValue(FilterPairs(Split(f, '|')), k)
  {
    var parts := Split(f, '|');
    var ps := FilterPairs(parts);
    assert ParseFilter(f).value == FromPairs(ps);
    FromPairsGet(ps, k);
  }

  /** The keys of the parsed filter are those of its parts, each once, in
      order of first appearance. */
  lemma ParseFilterKeys(f: string)
    requires ParseFilter(f).Ok?
    ensures AllHaveColon(Split(f, '|'))
    ensures Keys(ParseFilter(f).value) == Dedup(Keys(FilterPairs(Split(f, '|'))))
  {
    var parts := Split(f, '|');
    var ps := FilterPairs(parts);
    assert ParseFilter(f).value == FromPairs(ps);
    FromPairsKeys(ps);
  }

  /** An absent-looking filter is not empty: `''` splits into one part
      without `':'`. */
  lemma ParseFilterEmpty()
    ensures ParseFilter("") == Err(IndexError)
  {
    assert Split("", '|') == [""];
  }

  /** The text of one filter entry, `key:v1,v2,...`. */
  function ShowEntry(e: (string, seq<string>)): string
    requires |e.1| >= 1
  {
    e.0 + ":" + Join(e.1, ',')
  }

  /** The filter argument a client writes for `d`. */
  function ShowFilter(d: Filter): string
    requires |d| >= 1 && forall i :: 0 <= i < |d| ==> |d[i].1| >= 1
  {
    Join(seq(|d|, i requires 0 <= i < |d| => ShowEntry(d[i])), '|')
  }

  /** What a filter needs to survive being written out: keys without
      `'|'` or `':'`, at least one value per key, values without `'|'`,
      `':'` or `','`. */
  predicate Writable(d: Filter) {
    && |d| >= 1
    && (forall i :: 0 <= i < |d| ==> '|' !in d[i].0 && ':' !in d[i].0 && |d[i].1| >= 1)
    && (forall i, j :: 0 <= i < |d| && 0 <= j < |d[i].1| ==>
          '|' !in d[i].1[j] && ':' !in d[i].1[j] && ',' !in d[i].1[j])
  }

  lemma EntryRoundTrip(e: (string, seq<string>))
    requires '|' !in e.0 && ':' !in e.0 && |e.1| >= 1
    requires forall j :: 0 <= j < |e.1| ==> '|' !in e.1[j] && ':' !in e.1[j] && ',' !in e.1[j]
    ensures ':' in ShowEntry(e) && '|' !in ShowEntry(e)
    ensures FilterPair(ShowEntry(e)) == e
  {
    var vals := Join(e.1, ',');
    JoinAvoids(e.1, ',', ':');
    JoinAvoids(e.1, ',', '|');
    assert ShowEntry(e) == Join([e.0, vals], ':');
    assert ShowEntry(e)[|e.0|] == ':';
    JoinAvoids([e.0, vals], ':', '|');
    SplitJoin([e.0, vals], ':');
    SplitJoin(e.1, ',');
  }

  /** Parsing undoes writing, for every writable dict. */
  lemma ParseShowFilter(d: Filter)
    requires Valid(d) && Writable(d)
    ensures ParseFilter(ShowFilter(d)) == Ok(d)
  {
    var parts := seq(|d|, i requires 0 <= i < |d| => ShowEntry(d[i]));
    forall i | 0 <= i < |d|
      ensures ':' in parts[i] && '|' !in parts[i] && FilterPair(parts[i]) == d[i]
    {
      EntryRoundTrip(d[i]);
    }
    SplitJoin(parts, '|');
    assert Split(ShowFilter(d), '|') == parts;
    FilterPairsOf(d, parts);
    FromPairsOfValid(d);
  }

  lemma FilterPairsOf(d: Filter, parts: seq<string>)
    requires |parts| == |d|
    requires forall i :: 0 <= i < |d| ==> ':' in parts[i] && FilterPair(parts[i]) == d[i]
    ensures AllHaveColon(parts) && FilterPairs(parts) == d
  {
  }

  const Truthy: seq<string> := ["yes", "true", "1"]
  const Falsy: seq<string> := ["no", "false", "0"]

  /** `parse_response(r)`, compared case-insensitively. */
  function ParseResponse(r: string): (b: Result<bool, ApiError>)
    ensures b == Ok(true) <==> Lower(r) in Truthy
    ensures b == Ok(false) <==> Lower(r) in Falsy
    ensures b.Err? <==> Lower(r) !in Truthy + Falsy
    ensures b.Err? ==> b.error == InvalidResponse
  {
    var l := Lower(r);
    if l == "yes" || l == "true" || l == "1" then Ok(true)
    else if l == "no" || l == "false" || l == "0" then Ok(false)
    else Err(InvalidResponse)
  }

  /** Only the case of the letters is ignored. */
  lemma ParseResponseCaseInsensitive(r: string)
    ensures ParseResponse(Lower(r)) == ParseResponse(r)
  {
    LowerIdempotent(r);
  }

  /** Python's `0 ** n` for `n >= 0`. */
  function ZeroPower(n: nat): (p: nat)
    ensures p == 1 <==> n == 0
    ensures p == 0 <==> n > 0
  {
    if n == 0 then 1 else 0
  }

  /** `use_socrata`: `False` without `s`, otherwise `not 0 ** int(s, 2)`. */
  function UseSocrata(s: Option<string>): (r: Result<bool, ApiError>)
    ensures s.None? ==> r == Ok(false)
    ensures s.Some? && ParseInt(s.value, 2).None? ==> r == Err(ValueError)
    ensures s.Some? && ParseInt(s.value, 2).Some? ==>
      var n := ParseInt(s.value, 2).value;
      r == if n < 0 then Err(ZeroDivision) else Ok(n > 0)
  {
    match s
    case None => Ok(false)
    case Some(t) =>
      match ParseInt(t, 2)
      case None => Err(ValueError)
      case Some(n) => if n < 0 then Err(ZeroDivision) else Ok(!(ZeroPower(n) != 0))
  }

  /** A binary numeral selects the precomputed route iff it is not zero. */
  lemma UseSocrataBinary(n: nat)
    ensures UseSocrata(Some(ShowNat(n, 2))) == Ok(n > 0)
  {
    ParseShowNat(n, 2);
  }

  /** A negative binary numeral raises: zero has no negative powers. */
  lemma UseSocrataNegative(n: nat)
    requires n > 0
    ensures UseSocrata(Some("-" + ShowNat(n, 2))) == Err(ZeroDivision)
  {
    ParseShowNegative(n, 2);
  }

  /** The query arguments, one value per name. */
  type Args = map<string, string>

  function Arg(args: Args, name: string): Option<string> {
    if name in args then Some(args[name]) else None
  }

  datatype Request = Request(
    dset: Option<string>, qn: Option<string>, vars: seq<string>,
    resp: Option<bool>, filt: Filter, useSocrata: bool)

  function ResponseArg(b: Result<bool, ApiError>): Result<Option<bool>, ApiError> {
    match b
    case Ok(v) => Ok(Some(v))
    case Err(e) => Err(e)
  }

  /** The argument handling at the top of `fetch_survey_stats`: `v`, `r`,
      `f` and `s` are read in that order, so the first bad one decides the
      error; absent ones take their defaults. */
  function ParseRequest(args: Args): (r: Result<Request, ApiError>)
    ensures "r" in args && ParseResponse(args["r"]).Err? ==> r == Err(InvalidResponse)
    ensures ("r" !in args || ParseResponse(args["r"]).Ok?) && "f" in args && ParseFilter(args["f"]).Err? ==>
      r == Err(IndexError)
    ensures ("r" !in args || ParseResponse(args["r"]).Ok?) && ("f" !in args || ParseFilter(args["f"]).Ok?) ==>
      (r.Err? <==> UseSocrata(Arg(args, "s")).Err?)
    ensures (&& UseSocrata(Arg(args, "s")).Err?
             && ("r" !in args || ParseResponse(args["r"]).Ok?)
             && ("f" !in args || ParseFilter(args["f"]).Ok?))
            ==> r == Err(UseSocrata(Arg(args, "s")).error)
    ensures r.Ok? ==> r.value.vars == (if "v" in args then Split(args["v"], ',') else [])
    ensures r.Ok? ==> r.value.resp == (if "r" in args then Some(ParseResponse(args["r"]).value) else None)
    ensures r.Ok? ==> r.value.filt == (if "f" in args then ParseFilter(args["f"]).value else [])
    ensures r.Ok? ==> r.value.dset == Arg(args, "d") && r.value.qn == Arg(args, "q")
    ensures r.Ok? ==> UseSocrata(Arg(args, "s")) == Ok(r.value.useSocrata)
  {
    var vars := if "v" in args then Split(args["v"], ',') else [];
    var resp :- if "r" in args then ResponseArg(ParseResponse(args["r"])) else Ok(None);
    var filt :- if "f" in args then ParseFilter(args["f"]) else Ok([]);
    var soc :- UseSocrata(Arg(args, "s"));
    Ok(Request(Arg(args, "d"), Arg(args, "q"), vars, resp, filt, soc))
  }

  /** A slice descriptor as the fetch fan-out receives it: field name to
      the field's rendered value. */
  type SliceFields = Dict<string, string>

  /** A result row of the fetch fan-out. */
  type Row = Dict<string, string>

  /** `loc`: the survey key and the fixed dataset id. */
  function Location(k: string): (loc: SliceFields)
    ensures Valid(loc) && Keys(loc) == ["svy_id", "dset_id"]
  {
    [("svy_id", k), ("dset_id", "yrbss")]
  }

  function Tagged(loc: SliceFields, ss: seq<SliceFields>): (ts: seq<SliceFields>)
    ensures |ts| == |ss| && forall i :: 0 <= i < |ss| ==> ts[i] == Merge(loc, ss[i])
  {
    seq(|ss|, i requires 0 <= i < |ss| => Merge(loc, ss[i]))
  }

  /** The slice enumeration `gen_slices` calls, per response flag; it
      belongs to the survey object, which is not part of this model. */
  type Enumerate = bool -> seq<SliceFields>

  /** The list `gen_slices` returns. */
  function AllSlices(k: string, enumerate: Enumerate): seq<SliceFields> {
    Tagged(Location(k), enumerate(true)) + Tagged(Location(k), enumerate(false))
  }

  /** `gen_slices(k, svy, qn, resp, m_vars, m_filt)`; `resp` is not read. */
  method GenSlices(k: string, resp: Option<bool>, enumerate: Enumerate) returns (slices: seq<SliceFields>)
    ensures slices == AllSlices(k, enumerate)
  {
    var loc := Location(k);
    slices := Tagged(loc, enumerate(true));
    slices := slices + Tagged(loc, enumerate(false));
  }

  /** All slices for `True` come first, then all for `False`, each tagged
      with the location. */
  lemma AllSlicesOrder(k: string, enumerate: Enumerate)
    ensures |AllSlices(k, enumerate)| == |enumerate(true)| + |enumerate(false)|
    ensures forall i :: 0 <= i < |enumerate(true)| ==>
      AllSlices(k, enumerate)[i] == Merge(Location(k), enumerate(true)[i])
    ensures forall i :: 0 <= i < |enumerate(false)| ==>
      AllSlices(k, enumerate)[|enumerate(true)| + i] == Merge(Location(k), enumerate(false)[i])
  {
    ConcatParts(Tagged(Location(k), enumerate(true)), Tagged(Location(k), enumerate(false)));
  }

  /** A slice's own fields win over the location's. */
  lemma SliceFieldsWin(k: string, s: SliceFields, field: string)
    requires Valid(s)
    ensures Get(Merge(Location(k), s), field) ==
      if field in Keys(s) then Get(s, field)
      else if field == "svy_id" then Some(k)
      else if field == "dset_id" then Some("yrbss")
      else None
  {
    MergeGet(Location(k), s, field);
  }

  /** `fetch_computed` after the fan-out: one remapped row per fetched row,
      in order. */
  function FetchComputed(fetched: seq<Row>, remapOut: Row -> Row): (rs: seq<Row>)
    ensures |rs| == |fetched| && forall i :: 0 <= i < |fetched| ==> rs[i] == remapOut(fetched[i])
  {
    seq(|fetched|, i requires 0 <= i < |fetched| => remapOut(fetched[i]))
  }

  /** What the handler reaches outside this module for one dataset (its
      entries of `st.meta` and `st.dset`): the configuration remapper in
      both directions, the survey's sample size, its question texts (keyed
      by variable), its slice enumeration, the fetch fan-out and the
      precomputed route of its metadata. */
  datatype Services = Services(
    surveyKey: string,
    remapFilter: Filter -> Filter,
    remapVars: seq<string> -> seq<string>,
    remapOut: Row -> Row,
    sampleSize: Filter -> int,
    questions: map<string, string>,
    enumerate: (string, seq<string>, Filter) -> Enumerate,
    fetchAll: seq<SliceFields> -> seq<Row>,
    socrata: (Option<string>, Option<bool>, seq<string>, Filter) -> seq<Row>)

  /** The JSON reply (`error` and `var_levels` are always null). */
  datatype Reply = Reply(
    q: Option<string>, filter: Filter, question: Option<string>, response: Option<bool>,
    vars: seq<string>, results: seq<Row>, isSocrata: bool)

  /** The reply or the exception, and the slices handed to the fan-out. */
  datatype Outcome = Outcome(result: Result<Reply, ApiError>, dispatched: seq<SliceFields>)

  function Failed(e: ApiError): Outcome {
    Outcome(Err(e), [])
  }

  predicate KnownBefore(vs: seq<string>, i: nat, known: map<string, string>)
    requires i <= |vs|
  {
    forall j :: 0 <= j < i ==> vs[j] in known
  }

  /** The first variable with no entry in `known`: where the dict
      comprehension for `var_levels` raises. */
  function FirstUnknown(vs: seq<string>, known: map<string, string>): (r: Option<string>)
    ensures r.None? <==> forall i :: 0 <= i < |vs| ==> vs[i] in known
    ensures r.Some? ==> r.value !in known && exists i :: 0 <= i < |vs| && vs[i] == r.value && KnownBefore(vs, i, known)
  {
    if vs == [] then None
    else if vs[0] !in known then Some(vs[0])
    else
      var r := FirstUnknown(vs[1..], known);
      assert r.Some? ==> exists i :: 0 <= i < |vs| && vs[i] == r.value && KnownBefore(vs, i, known) by {
        if r.Some? {
          var i :| 0 <= i < |vs[1..]| && vs[1..][i] == r.value && KnownBefore(vs[1..], i, known);
          assert vs[i + 1] == r.value;
          forall j | 0 <= j < i + 1 ensures vs[j] in known {
            if j > 0 { assert vs[j] == vs[1..][j - 1]; }
          }
          assert KnownBefore(vs, i + 1, known);
        }
      }
      r
  }

  /** The survey route of `fetch_survey_stats` with its two unbound names
      bound: `remap_vars` to the configuration remapper and
      `SSEmptyFilterError` to the empty-filter error. The gate comes first;
      then the question is looked up (`svy.vars[qn]`, `KeyError(None)` when
      there is no `q`), then every mapped variable. */
  function SurveyRoute(req: Request, svc: Services): (o: Outcome)
    ensures svc.sampleSize(svc.remapFilter(req.filt)) <= 1 ==>
      o == Failed(EmptyFilter(svc.remapFilter(req.filt)))
    ensures svc.sampleSize(svc.remapFilter(req.filt)) > 1 && (req.qn.None? || req.qn.value !in svc.questions) ==>
      o == Failed(KeyError(req.qn))
    ensures o.result.Ok? <==>
      && svc.sampleSize(svc.remapFilter(req.filt)) > 1
      && req.qn.Some? && req.qn.value in svc.questions
      && forall v :: v in svc.remapVars(req.vars) ==> v in svc.questions
    ensures o.result.Err? && o.result.error.KeyError? ==> o.result.error.key.Some? ==>
      o.result.error.key.value !in svc.questions
    ensures o.result.Ok? ==>
      o.dispatched == AllSlices(svc.surveyKey, svc.enumerate(req.qn.value, svc.remapVars(req.vars), svc.remapFilter(req.filt)))
    ensures o.result.Ok? ==> o.result.value.results == FetchComputed(svc.fetchAll(o.dispatched), svc.remapOut)
    ensures o.result.Ok? ==> o.result.value.question == Some(svc.questions[req.qn.value]) && !o.result.value.isSocrata
    ensures o.result.Err? ==> o.dispatched == []
  {
    var mFilt := svc.remapFilter(req.filt);
    var mVars := svc.remapVars(req.vars);
    if !(svc.sampleSize(mFilt) > 1) then Failed(EmptyFilter(mFilt))
    else if req.qn.None? || req.qn.value !in svc.questions then Failed(KeyError(req.qn))
    else if FirstUnknown(mVars, svc.questions).Some? then
      Failed(KeyError(FirstUnknown(mVars, svc.questions)))
    else
      var slices := AllSlices(svc.surveyKey, svc.enumerate(req.qn.value, mVars, mFilt));
      var results := FetchComputed(svc.fetchAll(slices), svc.remapOut);
      Outcome(Ok(Reply(req.qn, req.filt, Some(svc.questions[req.qn.value]), req.resp,
                       req.vars, results, false)), slices)
  }

  /** `fetch_survey_stats` with the survey route as intended; `stats` holds
      the services of each dataset the process loaded. */
  function Handle(args: Args, stats: map<string, Services>): (o: Outcome)
    ensures ParseRequest(args).Err? ==> o == Failed(ParseRequest(args).error)
    ensures ParseRequest(args).Ok? ==> var req := ParseRequest(args).value;
      (req.dset.None? || req.dset.value !in stats) ==> o == Failed(KeyError(req.dset))
    ensures ParseRequest(args).Ok? ==> var req := ParseRequest(args).value;
      req.dset.Some? && req.dset.value in stats && req.useSocrata ==>
        o == Outcome(Ok(Reply(req.qn, req.filt, req.qn, req.resp, req.vars,
                              stats[req.dset.value].socrata(req.qn, req.resp, req.vars, req.filt), true)), [])
    ensures ParseRequest(args).Ok? ==> var req := ParseRequest(args).value;
      req.dset.Some? && req.dset.value in stats && !req.useSocrata ==>
        o == SurveyRoute(req, stats[req.dset.value])
    ensures o.result.Err? ==> o.dispatched == []
  {
    match ParseRequest(args)
    case Err(e) => Failed(e)
    case Ok(req) =>
      if req.dset.None? || req.dset.value !in stats then Failed(KeyError(req.dset))
      else
        var svc := stats[req.dset.value];
        if req.useSocrata then
          Outcome(Ok(Reply(req.qn, req.filt, req.qn, req.resp, req.vars,
                           svc.socrata(req.qn, req.resp, req.vars, req.filt), true)), [])
        else SurveyRoute(req, svc)
  }

  /** The sample-size gate: a filter whose remapped sample has at most one
      member fails before the question is looked up and before any slice is
      generated or fetched, even for a request without `q`. */
  lemma SampleSizeGate(args: Args, stats: map<string, Services>)
    requires ParseRequest(args).Ok?
    requires var req := ParseRequest(args).value;
      && req.dset.Some? && req.dset.value in stats && !req.useSocrata
      && stats[req.dset.value].sampleSize(stats[req.dset.value].remapFilter(req.filt)) <= 1
    ensures var req := ParseRequest(args).value;
      Handle(args, stats) == Failed(EmptyFilter(stats[req.dset.value].remapFilter(req.filt)))
  {
  }

  /** `fetch_survey_stats` as written: the survey route calls `remap_vars`,
      which the module never defines or imports. */
  function HandleAsWritten(args: Args, stats: map<string, Services>): (o: Outcome)
    ensures ParseRequest(args).Err? ==> o == Failed(ParseRequest(args).error)
  {
    match ParseRequest(args)
    case Err(e) => Failed(e)
    case Ok(req) =>
      if req.dset.None? || req.dset.value !in stats then Failed(KeyError(req.dset))
      else if req.useSocrata then Handle(args, stats)
      else Failed(NameError("remap_vars"))
  }

  /** As written, every request for a known dataset without the `s` flag
      fails, where the intended handler replies whenever the gate and the
      lookups pass. */
  lemma AsWrittenSurveyRouteFails(args: Args, stats: map<string, Services>)
    requires ParseRequest(args).Ok?
    requires var req := ParseRequest(args).value;
      req.dset.Some? && req.dset.value in stats && !req.useSocrata
    ensures HandleAsWritten(args, stats) == Failed(NameError("remap_vars"))
    ensures Handle(args, stats).result != Err(NameError("remap_vars"))
  {
  }

  /** The plainest request shows it: `d=yrbss&q=qn8`. */
  lemma AsWrittenCounterexample(stats: map<string, Services>)
    requires "yrbss" in stats
    ensures HandleAsWritten(map["d" := "yrbss", "q" := "qn8"], stats) == Failed(NameError("remap_vars"))
  {
    var args := map["d" := "yrbss", "q" := "qn8"];
    assert "r" !in args && "f" !in args && "s" !in args;
  }
}
