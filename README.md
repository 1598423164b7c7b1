# survey_stats: a verified model of the request and ETL core

survey_stats serves weighted survey statistics (the CDC Youth Risk Behavior
Survey and similar) over HTTP. The repository has four parts:

- ETL readers turn SPSS syntax files and SAS format files into column
  layouts, question texts and value labels;
- the frame munging of `etl/survey_df.py` filters, labels and merges the
  yearly data frames;
- the dataset object of `datasets.py` maps names, selects precomputed rows
  and enumerates the slices a statistic is computed over;
- the web layers (`api.py` and the standalone `test_harness.py`) parse the
  query arguments, call the survey engine and shape the JSON reply.

This project models those parts in Dafny, one module per source file:

| module | file | source |
|---|---|---|
| `Names` | names.dfy | `get_if`, `map_with_dict` of `src/survey_stats/datasets.py` |
| `Datasets` | datasets.dfy | the rest of `src/survey_stats/datasets.py` |
| `Api` | api.dfy | `src/survey_stats/api.py` |
| `Spss` | spss.dfy | `src/survey_stats/etl/spss.py` |
| `Sas` | sas.dfy | `src/survey_stats/etl/sas.py` |
| `SurveyFrames` | survey_df.dfy | `src/survey_stats/etl/survey_df.py` |
| `Harness` | harness.dfy | `test_harness.py` |

Five helper modules model the Python library behaviour the core leans on:

- `Common`: `Option` and `Result`.
- `Seqs`: the `cytoolz` `filter`/`mapcat`/`map` pipeline steps and `sorted(set(..))`.
- `Text`: the `str` methods the parsers use, on ASCII.
- `Numbers`: `int(s, base)`.
- `Dicts`: an insertion-ordered `dict` as a list of pairs. Each key occurs once, a later assignment wins, and a key keeps its first position.

Python dicts are modelled with their order because the order is
observable: column layouts are `OrderedDict`s and key-mapping collisions
keep the last value.

Where the source loops and mutates, the model does too:

- `Datasets.GenerateSlices` mutates a `FilterDict` object.
- `Spss.ParseFwfColsSpss` and `Spss.ParseSurveyVarsSpss` keep the readers' flag loops.
- `Harness.FetchStats` pops a copied list.

Each of these methods is proved equal to a specification function, and the
properties are proved about that function. Pure pipelines are functions
with lemmas.

## Model

| member | source | states |
|---|---|---|
| Names.GetIf | src/survey_stats/datasets.py:28-29 | the mapped name for a key of the table, the name itself otherwise |
| Names.MapWithDict | src/survey_stats/datasets.py:34-42 | a string is mapped; a list is mapped elementwise in order; a set is the image set; a dict is a valid dict whose keys are the renamed keys in order of first appearance and whose value for each key is that of the last entry renamed to it; any other type gives `None` |
| Names.RenamedPairs | src/survey_stats/datasets.py:41-42 | the `i`-th renamed pair is the `i`-th entry with its key passed through `get_if` |
| Names.MapDictKeepsValues | src/survey_stats/datasets.py:41-42 | when the mapped keys stay distinct, `keymap` keeps every value and its position |
| Names.GetIfIdempotent | src/survey_stats/datasets.py:28-29 | when no target is itself a key, mapping twice is mapping once |
| Names.YearTableIdempotent | src/survey_stats/datasets.py:176 | the `{'year': 'yr'}` mapper is idempotent |
| Names.YearTableNotInjective | src/survey_stats/datasets.py:176 | `year` and `yr` map to the same name |
| Names.YearTableMergesFilterKeys | src/survey_stats/datasets.py:41-42 | a filter keyed by both `year` and `yr` loses the `year` values when mapped |
| Datasets.LoadMetadata | src/survey_stats/datasets.py:75-88 | the metadata copies id, strata, facets and national filter; it lists the surveys part iff configured, the socrata part iff configured, each once, surveys first |
| Datasets.Vars | src/survey_stats/datasets.py:140-141 | the strata followed by the facets |
| Datasets.MapperFor | src/survey_stats/datasets.py:170-176 | the `year`→`yr` mapper exactly when a database is used and feather is not; identity otherwise |
| Datasets.MapName | src/survey_stats/datasets.py:205-206 | identity, or `map_with_dict` on a string |
| Datasets.MapNames | src/survey_stats/datasets.py:198 | identity, or `map_with_dict` on a list: elementwise, same length |
| Datasets.MapEntries | src/survey_stats/datasets.py:199 | identity, or `map_with_dict` on a dict |
| Datasets.FilterDict.Put | src/survey_stats/datasets.py:273 | the filter object after `filt[site_col] = …` is the old dict with that key assigned |
| Datasets.MapFilter | src/survey_stats/datasets.py:266-267 | the identity mapper returns the caller's own filter object (aliasing); the dict mapper returns a fresh object holding the mapped entries |
| Datasets.ValuesForCol | src/survey_stats/datasets.py:191-195 | the distinct non-missing values of the column minus the excluded ones, each once, in unspecified order; an error when there is no survey table or no such column |
| Datasets.ForResponse | src/survey_stats/datasets.py:275-282 | for one response: the prefixes `vars[:1]` … `vars[:n]` in that order, then the total (no variables) last |
| Datasets.SlicesForLength | src/survey_stats/datasets.py:279-282 | `generate_slices` lists `len(resps) * (len(vars) + 1)` slices |
| Datasets.SlicesForBlocks | src/survey_stats/datasets.py:279-282 | the `i`-th block of `len(vars) + 1` slices is exactly the slices for the `i`-th response |
| Datasets.SlicesShareFilter | src/survey_stats/datasets.py:280-281 | every slice carries the dataset id, the question, one of the responses and the same filter object |
| Datasets.RestrictToNational | src/survey_stats/datasets.py:268-273 | a filter naming the site column is left alone; otherwise the site column is set to the national values when the national filter includes, or to all site values except the national ones when it excludes; the lookup error when the column is missing |
| Datasets.SlicesLoop | src/survey_stats/datasets.py:276-282 | the loop over responses builds exactly the specified slice list |
| Datasets.GenerateSlices | src/survey_stats/datasets.py:265-284 | the mapped filter gets the national site restriction only when it has no site key; the response values are enumerated; the result is the specified slice list over the mapped variables; every error case names its column |
| Datasets.TestedFacets | src/survey_stats/datasets.py:202-203 | the facets tested are exactly the configured facets that are fields of the table |
| Datasets.RowSelection | src/survey_stats/datasets.py:204-219 | the selection is undefined (a missing column) exactly when the question column, or a site or year column that is read, is missing from the row |
| Datasets.AndFacets | src/survey_stats/datasets.py:215-219 | the loop that rebinds `sel` keeps a row iff it was selected and every tested facet is kept |
| Datasets.SelectRow | src/survey_stats/datasets.py:204-219 | the imperative selection equals the row predicate |
| Datasets.RowSelectionMonotone | src/survey_stats/datasets.py:209-219 | asking for more grouping variables never drops a selected row |
| Datasets.NationalTotalRow | src/survey_stats/datasets.py:204-219 | with no variables and no filter, a row is kept iff it is the question's national (`XX`) total (`Total`) row with every facet at `Total` |
| Datasets.SelectedColumns | src/survey_stats/datasets.py:220-224 | the columns returned are the fields of the table among the annotation, grouping and statistics columns |
| Datasets.ResponseFormula | src/survey_stats/datasets.py:247 | the formula is `~I(` then the question, then `=="`, then the response, then `")`, each at its position, with length `len(qn) + len(r) + 8` |
| Datasets.ResponseFormulaDecodes | src/survey_stats/datasets.py:247 | for question names without `=`, the formula determines both the question and the response |
| Datasets.FetchStatsForSlice | src/survey_stats/datasets.py:241-263 | an empty subset gives the empty table with the `levelresponse`, variable and statistics columns; otherwise grouped statistics iff there are variables, else totals, both on the response formula |
| Datasets.EmptyTableWidth | src/survey_stats/datasets.py:253-255 | the empty table has `len(vars) + 7` columns |
| Api.FilterPair | src/survey_stats/api.py:132-133 | the key is the text before the first `:`; the values are the second `:`-segment split on `,` (none holds `,` or `:`, and their join is followed by `:` or the end), so text after a second `:` is dropped |
| Api.FilterPairs | src/survey_stats/api.py:132-133 | one pair per `|`-part, in order |
| Api.ParseFilter | src/survey_stats/api.py:131-133 | fails with `IndexError` iff some `|`-part has no `:`; the result is a valid dict |
| Api.ParseFilterLastWins | src/survey_stats/api.py:131-133 | a repeated key takes the values of its last part |
| Api.ParseFilterKeys | src/survey_stats/api.py:131-133 | the keys are the part keys in order of first appearance |
| Api.ParseFilterEmpty | src/survey_stats/api.py:131-133 | the empty filter argument raises `IndexError` |
| Api.EntryRoundTrip | src/survey_stats/api.py:132-133 | rendering an entry as `k:v1,v2` and parsing it gives the entry back |
| Api.ParseShowFilter | src/survey_stats/api.py:131-133 | parsing a rendered filter gives the filter back |
| Api.ParseResponse | src/survey_stats/api.py:135-141 | `yes`/`true`/`1` give true and `no`/`false`/`0` give false, case-insensitively; anything else raises |
| Api.ParseResponseCaseInsensitive | src/survey_stats/api.py:135-141 | lowercasing the argument does not change the answer |
| Api.ZeroPower | src/survey_stats/api.py:150 | `0 ** n` is 1 iff `n == 0` and 0 iff `n > 0` |
| Api.UseSocrata | src/survey_stats/api.py:150 | absent gives false; text that is not binary raises `ValueError`; a negative number raises `ZeroDivisionError`; otherwise true iff the number is positive |
| Api.UseSocrataBinary | src/survey_stats/api.py:150 | any binary numeral decodes to "positive" |
| Api.UseSocrataNegative | src/survey_stats/api.py:150 | a negative binary numeral raises `ZeroDivisionError` |
| Api.ParseRequest | src/survey_stats/api.py:145-150 | the arguments are parsed in source order: the first failing parser's error is raised; on success vars, response, filter and the socrata flag have their defaults or parsed values |
| Api.Location | src/survey_stats/api.py:111 | the location dict has exactly the keys `svy_id` and `dset_id` |
| Api.Tagged | src/survey_stats/api.py:112-115 | each slice is merged under the location, in order |
| Api.GenSlices | src/survey_stats/api.py:110-116 | the slices for `True`, then the slices for `False`, each merged under the location |
| Api.AllSlicesOrder | src/survey_stats/api.py:110-116 | all slices for `True` precede all for `False`, with positions and count |
| Api.SliceFieldsWin | src/survey_stats/api.py:112-115 | in a merged slice the slice's own field wins over the location's |
| Api.FetchComputed | src/survey_stats/api.py:118-122 | one remapped row per fetched row, in order |
| Api.FirstUnknown | src/survey_stats/api.py:164 | the first variable without an entry, where the comprehension raises; none iff all are known |
| Api.SurveyRoute | src/survey_stats/api.py:156-165 | a remapped filter with sample size at most 1 fails first; then a missing or unknown question raises `KeyError` of that key (`None` without `q`); it succeeds iff the gate passes and the question and every mapped variable are known; on success the dispatched slices are the two-response enumeration, the results their remapped rows and the question its text |
| Api.Handle | src/survey_stats/api.py:143-180 | a parse error is raised as is; an unknown or missing dataset raises `KeyError` of that key; the socrata route replies with the dataset's precomputed rows and dispatches no slices; otherwise the survey route of that dataset; a failed request dispatches nothing |
| Api.SampleSizeGate | src/survey_stats/api.py:161-162 | a request whose remapped filter has sample size at most 1 fails with the empty-filter error and dispatches nothing, with or without `q` |
| Api.HandleAsWritten | src/survey_stats/api.py:156-162 | the handler as written: parse errors as before, the survey route stops at the unbound `remap_vars` |
| Api.AsWrittenSurveyRouteFails | src/survey_stats/api.py:159 | as written every survey-route request fails with `NameError`; the intended handler never does |
| Api.AsWrittenCounterexample | src/survey_stats/api.py:159 | `d=yrbss&q=qn8` fails as written |
| Spss.StripLine | src/survey_stats/etl/spss.py:7-11 | the result is the line with surrounding whitespace, then surrounding periods, stripped and every quote left out; it has no quotes and only characters of the line |
| Spss.Unquoted | src/survey_stats/etl/spss.py:11 | leaving out the quotes keeps every other character and no quote |
| Spss.ReplaceQuotes | src/survey_stats/etl/spss.py:11 | the two `replace` calls leave out exactly the quotes |
| Spss.StripLineUnchanged | src/survey_stats/etl/spss.py:7-11 | a line already trimmed, without edge periods or quotes, is unchanged |
| Spss.ParseFieldSpanOk | src/survey_stats/etl/spss.py:29-37 | a span parses iff it is exactly two `-`-separated integers; otherwise the error names the span |
| Spss.FieldSpanRange | src/survey_stats/etl/spss.py:33 | as written a parsed span starts at -1 or more and ends at 0 or more |
| Spss.ParseFieldSpanRoundTrip | src/survey_stats/etl/spss.py:29-37 | `"st+1-en"` parses to the zero-based `(st, en)` |
| Spss.NegativeStartRejected | src/survey_stats/etl/spss.py:32-36 | `-1-5` splits into three parts and is rejected |
| Spss.AddWidthsLoop | src/survey_stats/etl/spss.py:62-65 | the pair loop equals its specification |
| Spss.AddPairsLoop | src/survey_stats/etl/spss.py:62-65 | for any span parser, the loop assigns the lowered names in order or stops at the first bad span |
| Spss.PairsStep | src/survey_stats/etl/spss.py:62-65 | one step of the pair loop: a bad span stops it; a good one adds the lowered name |
| Spss.PlacedStep | src/survey_stats/etl/spss.py:65 | placing a pair then the rest equals assigning it first |
| Spss.ParseFwfColsSpss | src/survey_stats/etl/spss.py:44-70 | the line loop with its flag equals the fold of the per-line step |
| Spss.FwfSkipsPreamble | src/survey_stats/etl/spss.py:47-50 | lines before `DATA LIST FILE` are ignored |
| Spss.FwfStopsAtExecute | src/survey_stats/etl/spss.py:51-53 | `EXECUTE` inside the widths block ends the loop, ignoring every later line |
| Spss.FwfOddWidths | src/survey_stats/etl/spss.py:57-61 | an odd token count in the widths block raises with the stripped line |
| Spss.AddWidthsLastWins | src/survey_stats/etl/spss.py:62-65 | a column named twice keeps its last span; other columns are unchanged |
| Spss.SpanPairsInRange | src/survey_stats/etl/spss.py:33 | every parsed span has start at least -1 and end at least 0 |
| Spss.FromPairsInRange | src/survey_stats/etl/spss.py:65 | the dict built from in-range spans has in-range spans |
| Spss.FwfColsAsWritten | src/survey_stats/etl/spss.py:44 | as written the reader raises `NameError` for `OrderedDict` |
| Spss.Close | src/survey_stats/etl/spss.py:127-128 | closing a value block raises `KeyError` iff the current variable is unset or unknown; otherwise it sets that variable's responses and is-integer flag and keeps the keys |
| Spss.ParseSurveyVarsSpss | src/survey_stats/etl/spss.py:95-154 | the line loop with its two flags equals the fold of the per-line step |
| Spss.VariableLabelEntry | src/survey_stats/etl/spss.py:108-117 | a variable-label line adds the lowered name with its question, no responses, not integer, and makes that name the current variable |
| Spss.DeclarationStep | src/survey_stats/etl/spss.py:108-117 | the whole state after a variable-label line: the entry is set and the shared `var` is rebound to its name |
| Spss.BlankStep | src/survey_stats/etl/spss.py:105-107 | the blank line ending the variable-label block changes nothing else, the current variable included |
| Spss.ValueBlockOpens | src/survey_stats/etl/spss.py:118-123 | `VALUE LABELS` opens a value block with no current variable and no labels |
| Spss.ValueBlockNames | src/survey_stats/etl/spss.py:141-143 | with no current variable, the next line names it: stripped and lowercased |
| Spss.ValueBlockAppends | src/survey_stats/etl/spss.py:145-148 | with a current variable, a line appends its code and label split at the first space |
| Spss.CloseBlock | src/survey_stats/etl/spss.py:124-140 | `/.` and `/` both store the collected responses and the all-digits flag; only `/.` leaves the value-labels block |
| Spss.CloseUnknown | src/survey_stats/etl/spss.py:127 | closing with no current variable or an unknown one raises `KeyError` |
| Spss.NoValueLabels | src/survey_stats/etl/spss.py:101-117 | without `VALUE LABELS` every variable keeps no responses and is not integer |
| Spss.SurveyVarsAsWritten | src/survey_stats/etl/spss.py:95 | as written the reader raises `NameError` for `OrderedDict` |
| Spss.AsWrittenAlwaysFails | src/survey_stats/etl/spss.py:44 | both readers fail on every input as written, even the empty file the intended readers accept |
| Sas.QuestionPair | src/survey_stats/etl/sas.py:22-23 | a label line fails iff it has no `=` |
| Sas.ParseQuestions | src/survey_stats/etl/sas.py:16-26 | the result is a valid dict |
| Sas.QuestionKeys | src/survey_stats/etl/sas.py:16-26 | a variable has a question iff some `label` line's text left of `=`, stripped and lowercased, is that variable |
| Sas.QuestionLastLine | src/survey_stats/etl/sas.py:16-26 | a variable's question is the unquoted, stripped text right of `=` on the last `label` line naming it, and no other |
| Sas.QuestionLinesLast | src/survey_stats/etl/sas.py:22-24 | over any lines: the entry of a key is the text of the last line with that key |
| Sas.TraversedKeys | src/survey_stats/etl/sas.py:24 | `dict` of mapped elements has a key iff some element maps to a pair with that key |
| Sas.TraversedLast | src/survey_stats/etl/sas.py:24 | a key's value comes from the last element mapped to that key |
| Sas.LastTraversed | src/survey_stats/etl/sas.py:24 | the last element mapped to a key gives its value |
| Sas.QuestionsFail | src/survey_stats/etl/sas.py:18-25 | parsing fails iff some line of a `label` statement has no `=` |
| Sas.QuestionLinesFail | src/survey_stats/etl/sas.py:22-23 | the pair map fails iff some line has no `=` |
| Sas.QuestionTexts | src/survey_stats/etl/sas.py:16-26 | every key is lower case; every text has no quotes, no `=` and no upper case |
| Sas.LabelLinesLower | src/survey_stats/etl/sas.py:21 | the label lines hold no upper-case letter |
| Sas.QuestionLinesTexts | src/survey_stats/etl/sas.py:22-25 | from lower-case lines, the pairs are lower case and unquoted |
| Sas.ParseFormatAssignments | src/survey_stats/etl/sas.py:28-37 | the result is a valid dict |
| Sas.FormatAssigned | src/survey_stats/etl/sas.py:28-37 | a name has a format iff it is a word of some word list of a `format` statement segment |
| Sas.FormatAssignedValue | src/survey_stats/etl/sas.py:28-37 | the format a name has is the last word of a word list holding the name |
| Sas.ListsAssigned | src/survey_stats/etl/sas.py:33-35 | over any word lists: a name is assigned iff some list holds it |
| Sas.AssignedFromList | src/survey_stats/etl/sas.py:34-35 | an assigned name's format is the last word of a list holding it |
| Sas.ListAssigns | src/survey_stats/etl/sas.py:34-35 | every word of a list gets a format |
| Sas.ListOfPair | src/survey_stats/etl/sas.py:34 | every pair comes from a list, with that list's last word |
| Sas.PairOfList | src/survey_stats/etl/sas.py:34 | every word of a list is a pair key |
| Sas.LastPairsMembers | src/survey_stats/etl/sas.py:34 | a list's pairs are exactly its words, each with its last word |
| Sas.FormatLaterWins | src/survey_stats/etl/sas.py:34-36 | a name in several segments takes the format of the last |
| Sas.ReplaceIfKeyed | src/survey_stats/etl/sas.py:40-41 | the replacement for a key of the table, the key itself otherwise |
| Sas.CodeLine | src/survey_stats/etl/sas.py:53-55 | the code has no whitespace or quotes; the label keeps only the allowed characters |
| Sas.CodesMembers | src/survey_stats/etl/sas.py:56-57 | the codes are the `,`-parts of the range-free entries, each with its entry's label |
| Sas.CommaAndRange | src/survey_stats/etl/sas.py:56-57 | `1,2` gives two codes; a range `1-3` gives none |
| Sas.Block2Dict | src/survey_stats/etl/sas.py:44-64 | fails iff some line has no `=`; the result is a valid dict |
| Sas.Block2DictEntries | src/survey_stats/etl/sas.py:56-61 | every entry is a numeric code with its lowered and replaced label |
| Sas.Block2DictComplete | src/survey_stats/etl/sas.py:58-61 | every numeric code of the block has an entry |
| Sas.NumericCodesComplete | src/survey_stats/etl/sas.py:58-61 | every numeric code survives the filter and conversion |
| Sas.ValueStatement | src/survey_stats/etl/sas.py:72-73 | the variable name is lower case |
| Sas.ParseVariableLabels | src/survey_stats/etl/sas.py:67-78 | fails iff some `value` statement fails; the result is a valid dict |
| Sas.VariableLabelsFrom | src/survey_stats/etl/sas.py:69-75 | every entry is lower case and comes from some `value` statement |
| Sas.VariableLabelsKeys | src/survey_stats/etl/sas.py:69-75 | a format has labels iff some `value` statement names it |
| Sas.VariableLabelsLast | src/survey_stats/etl/sas.py:69-75 | a format's labels are those of the last `value` statement naming it, and no other |
| Sas.ValueStatementsFrom | src/survey_stats/etl/sas.py:73-74 | over any statements: every entry is lower case and comes from one of them |
| Sas.JoinLabelsGet | src/survey_stats/etl/sas.py:102 | a variable's labels are those of its format, absent when the format has none |
| Sas.JoinLabelsValid | src/survey_stats/etl/sas.py:102 | the join is a valid dict over assigned variables only |
| Sas.LoadVariableLabels | src/survey_stats/etl/sas.py:81-102 | fails iff the format labels fail to parse |
| Sas.LoadedLabels | src/survey_stats/etl/sas.py:81-102 | each variable gets the labels of its assigned format, lowered; none when unassigned or the format is unknown |
| Sas.XportFormat | src/survey_stats/etl/sas.py:136 | the format is `sas7bdat` or `xport` |
| Sas.XportFormatChoice | src/survey_stats/etl/sas.py:136 | a `.sas7bdat` path reads as `sas7bdat`; a URL without `s` as `xport` |
| Sas.LowerColumns | src/survey_stats/etl/sas.py:137 | every column name is lowered, in order |
| Sas.LowerColumnsIdempotent | src/survey_stats/etl/sas.py:137 | lowering twice is lowering once |
| SurveyFrames.TranslateSites | src/survey_stats/etl/survey_df.py:27-29 | each code is translated, in order |
| SurveyFrames.TranslatedSites | src/survey_stats/etl/survey_df.py:27-29 | every value is a state abbreviation or `NA`, and `NA` exactly for unknown codes |
| SurveyFrames.FilterColumns | src/survey_stats/etl/survey_df.py:69-75 | the columns kept are sorted without repeats and are exactly the frame's columns among the question ids and facet keys |
| SurveyFrames.FilterColumnsUnique | src/survey_stats/etl/survey_df.py:71-75 | any sorted list without repeats of those columns is the result |
| SurveyFrames.FilteredFrame | src/survey_stats/etl/survey_df.py:76 | the filtered frame has exactly the filtered columns, each taken from the frame |
| SurveyFrames.NaSynonym | src/survey_stats/etl/survey_df.py:105-110 | a cell becomes missing iff it is missing or a string whose lower case is a synonym; every other cell is unchanged |
| SurveyFrames.NaSynonymIdempotent | src/survey_stats/etl/survey_df.py:105-110 | applying it twice is applying it once |
| SurveyFrames.FindNaSynonyms | src/survey_stats/etl/survey_df.py:104-111 | the cellwise rule applied to every cell; names and dtypes kept |
| SurveyFrames.FillColumn | src/survey_stats/etl/survey_df.py:118-120 | no missing cell remains: `NA` in text columns (which become categorical), `-1` in the others; the other cells are kept |
| SurveyFrames.FillIdempotent | src/survey_stats/etl/survey_df.py:118-120 | filling twice is filling once |
| SurveyFrames.Undash | src/survey_stats/etl/survey_df.py:115 | a name starting with `_` gets an `x` prefix, others are kept; the empty name raises |
| SurveyFrames.UndashIdempotent | src/survey_stats/etl/survey_df.py:115 | undashing twice is undashing once |
| SurveyFrames.UndashMerges | src/survey_stats/etl/survey_df.py:115 | `_y` and `x_y` become the same column name |
| SurveyFrames.MergeSurveys | src/survey_stats/etl/survey_df.py:113-122 | fails iff some column has an empty name; otherwise one column per column |
| SurveyFrames.MergedColumns | src/survey_stats/etl/survey_df.py:116-122 | each merged column is undashed, typed and filled after the synonym rule |
| SurveyFrames.MergedComplete | src/survey_stats/etl/survey_df.py:118-120 | no merged column has a missing cell |
| SurveyFrames.ReplaceCodes | src/survey_stats/etl/survey_df.py:35-37 | each code, missing as -1, is replaced by its label when labelled |
| SurveyFrames.SortedKeys | src/survey_stats/etl/survey_df.py:56 | the label codes ascending, each once |
| SurveyFrames.EagerConvert | src/survey_stats/etl/survey_df.py:43-66 | unchanged iff the column has no labels or some code is unlabelled; labelled iff all are labelled and the labels are distinct, with each cell's label and the categories in code order; otherwise the forced replacement |
| Harness.QuestionFormula | test_harness.py:171 | `~qn`, or `~!qn` for the other response |
| Harness.QuestionFormulaDecodes | test_harness.py:171 | the response and question can be read back from the formula |
| Harness.StatsBlocks | test_harness.py:151-192 | the total first, then one block per prefix, longest first, each with its level, question and response |
| Harness.StrList.Pop | test_harness.py:191 | the list loses its last item |
| Harness.FetchStats | test_harness.py:183-192 | the popping loop over a copy yields the specified blocks; the caller's list is not modified |
| Harness.PrefixOrderReversed | test_harness.py:185-191 | the harness lists the prefixes in reverse order to `generate_slices`, with the total first rather than last |
| Harness.NormalizeCode | test_harness.py:225 | an `H` code becomes `qn` followed by the rest with each `H` replaced by `qn` character by character, so no `H` remains and every other character survives; any other code becomes its lowercase form; an empty code raises |
| Harness.NormalizeKeepsCase | test_harness.py:225 | `HA` becomes `qnA`, `QA` becomes `qa` |
| Harness.NewInvalidUsage | test_harness.py:237-241 | the error carries its message, status and payload |
| Harness.NewComputationError | test_harness.py:250-254 | the error carries its message, status and payload |
| Harness.ToDict | test_harness.py:243-260 | a valid dict with `message` (and, for computation errors, `status_code`) overriding the payload, every other payload entry kept |
| Harness.ToDictPayload | test_harness.py:244 | a payload key repeated in the pairs takes its last value |
| Harness.Respond | test_harness.py:266-275 | the reply has the error's status and its message |
| Harness.DefaultStatus | test_harness.py:237-250 | the default statuses are 400 and 500 |
| Harness.NationalVars | test_harness.py:290 | `[]` without `v`, else a split whose join gives `v` back |
| Harness.NationalResponse | test_harness.py:291 | true without `r`; else whether `int(r)` is positive, or the `ValueError` |
| Harness.FirstMissing | test_harness.py:298 | the index of the first variable that is not a survey variable |
| Harness.LevelPairsLast | test_harness.py:298 | `var_levels` maps each variable to its own survey variable |
| Harness.QueryArg | test_harness.py:289 | `q` when given, else `None` |
| Harness.MissingKey | test_harness.py:292-301 | the question is looked up before the variables; no key is missing iff all lookups succeed |
| Harness.NationalOk | test_harness.py:293-300 | the reply echoes question, response and variables, takes the question text, maps each variable to its entry and holds the specified blocks |
| Harness.FetchNational | test_harness.py:287-302 | a bad `r` escapes unhandled; a missing key becomes a 400 naming it; otherwise the reply |

## Left out

- Every call into R (`svydesign`, `svyciprop`, `svyby`, `unwtd_count`, `subset_survey`, `dim_design`, `fetch_stats_by`, `fetch_stats_totals`) is outside the model. A statistics block is the request for it, and the sample size and the subset's row count are parameters.
- Floating point is not modelled: weights, rounding to `DECIMALS`, the `-1.0`→NaN replacement of `fetch_socrata` and the float casts of `munge_df`.
- I/O is not modelled: files, feather and blaze/odo hydration, the database, `dl.fetch_data_from_url`, `load_sas_from_zip`/`load_sas_from_url`/`pd.read_sas`, `read_json` and the CDC metadata fetch. File contents enter as strings or lines.
- Dask `delayed`, `dd.concat`/`pd.concat` and the async `fetch.fetch_all` fan-out are not modelled. The fan-out is a function parameter, and a merged frame is a list of columns.
- The `us` library is a parameter: a map from FIPS code to abbreviation. The `'%.2d'` formatting it needs is not modelled.
- pandas dtype inference (`applymap`, `to_numeric`, `astype`) is not modelled. A column's dtype is given. `EagerConvert` takes codes that are already integers and treats each missing code as `-1`. Its `ValueError` branch is taken when the labels repeat (`rename_categories` refuses duplicates).
- `values_for_col` returns the elements of a set in an order Python leaves unspecified. The model proves only that they are enumerated.
- `api.py` calls a `generate_slices(qn, resp, vars, filt)` of a survey class that is not part of this model. That enumeration is a parameter.
- The `get_meta`/`fetch_questions` routes and the `SurveyMeta.facet_map`, `questions` and `facet_levels` builders are not modelled. They are pandas `groupby`/`agg` wrappers.
- `fetch_questions` of `test_harness.py` is not modelled either.
- `load_cdc_survey`, `process_sas_survey` and `varlabels2df` are not modelled, because they assemble frames through pandas, dask and R.
- Decoding with `errors='ignore'` is not modelled: SAS texts are strings. The `asteval` column renamer is not modelled.
- String predicates are ASCII only: `isdigit`/`isnumeric`, `\s`, `\w` and `lower`. Python's Unicode classes are wider.
- `str(KeyError(k))` is modelled as `'k'`. Python's `repr` picks other quotes for a key containing `'`.
- The rows `fetch_socrata` returns are modelled by the row predicate and the column set only.
- Harness.FetchNational: `ComputationError` from a failing R computation is not produced, because `fetch_stats` is modelled as total.
- Datasets.GenerateSlices: the shared mutable default `filt={}` (`src/survey_stats/datasets.py:265`) is not modelled. Under the identity mapper a call without `filt` would get the default object back, add the site restriction to it, and leave that restriction for the next such call. The model starts every call from a fresh empty filter. No call site in the repository leaves out `filt`.
- Api.Handle: `st.meta[dset]` and `st.dset[dset]` are one map from dataset name to that dataset's services, so a dataset is known to both or to neither.
- Spss.FieldSpanRange: the bound is as written (a start of `0` gives `-1`), because the code does not check it.

### Behaviour worth noting

- `generate_slices` puts each response's total slice after its level slices (`src/survey_stats/datasets.py:282`).
- The national site restriction is added whenever the filter has no site key, whatever the grouping variables are (`src/survey_stats/datasets.py:269`).
- The empty table's first column is the single name `levelresponse` (`src/survey_stats/datasets.py:253`).

## Findings

| source | as written | input that shows it | evidently intended | confidence | as-written member | corrected member |
|---|---|---|---|---|---|---|
| src/survey_stats/etl/spss.py:44 | `OrderedDict()` is called but never imported, so both readers raise `NameError` before reading a line | any SPSS file, even an empty one | `from collections import OrderedDict`; the readers build their dicts | high (not executed) | Spss.AsWrittenAlwaysFails | Spss.ParseFwfColsSpss |
| src/survey_stats/etl/spss.py:95 | as above, for the survey-variable reader | any SPSS file | as above | high (not executed) | Spss.SurveyVarsAsWritten | Spss.ParseSurveyVarsSpss |
| src/survey_stats/api.py:159-162 | `remap_vars` and `SSEmptyFilterError` are never defined or imported, so every survey-route request raises `NameError` | `/stats?d=yrbss&q=qn8` | the configuration remapper, and an empty-filter error raised by the sample-size gate | high (not executed) | Api.AsWrittenCounterexample | Api.SampleSizeGate |
