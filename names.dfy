/** The name mapper of datasets.py: `get_if` and `map_with_dict`, which
    translate external variable names into the storage database's names.
    The Python function dispatches on the runtime type of its argument; here
    that type is an explicit variant with one case per shape. */
module Names {
  import opened Common
  import opened Dicts

  /** The one table the source uses: `year` is a reserved word in the
      storage database, so the column is stored as `yr`. */
  const YearTable: map<string, string> := map["year" := "yr"]

  /** `get_if(x, d)`: the table's entry for `x`, or `x` itself. */
  function GetIf(x: string, table: map<string, string>): (r: string)
    ensures x in table ==> r == table[x]
    ensures x !in table ==> r == x
  {
    if x in table then table[x] else x
  }

  /** `get_if` with the table fixed, as `map_with_dict` hands it to `keymap`. */
  function Rename(table: map<string, string>): string -> string {
    k => GetIf(k, table)
  }

  /** The Python values `map_with_dict` distinguishes: `str`, `list`, `set`,
      `dict` (with values of any type `V`) and everything else. */
  datatype Value<V> =
    | Str(s: string)
    | List(items: seq<string>)
    | SetOf(members: set<string>)
    | DictOf(entries: Dict<string, V>)
    | Other

  /** `map_with_dict(table, val)`; `None` is the `None` the Python function
      falls through to for any other type. */
  function MapWithDict<V>(table: map<string, string>, val: Value<V>): (r: Option<Value<V>>)
    ensures r.None? <==> val.Other?
    ensures val.Str? ==> r == Some(Str(GetIf(val.s, table)))
    ensures val.List? ==> r.Some? && r.value.List? && |r.value.items| == |val.items|
    ensures val.List? ==> forall i :: 0 <= i < |val.items| ==> r.value.items[i] == GetIf(val.items[i], table)
    ensures val.SetOf? ==> r.Some? && r.value.SetOf?
    ensures val.SetOf? ==> forall x :: x in r.value.members <==> exists y :: y in val.members && x == GetIf(y, table)
    ensures val.DictOf? ==> r.Some? && r.value.DictOf? && Valid(r.value.entries)
    ensures val.DictOf? ==> Keys(r.value.entries) == Dedup(Keys(RenameKeys(Rename(table), val.entries)))
    ensures val.DictOf? ==> forall k :: Get(r.value.entries, k) == LastValue(RenameKeys(Rename(table), val.entries), k)
  {
    match val
    case Str(s) => Some(Str(GetIf(s, table)))
    case List(items) => Some(List(seq(|items|, i requires 0 <= i < |items| => GetIf(items[i], table))))
    case SetOf(members) => Some(SetOf(set y | y in members :: GetIf(y, table)))
    case DictOf(entries) =>
      Some(DictOf(KeyMap(Rename(table), entries)))
    case Other => None
  }

  /** The pairs of a renamed dict are its entries with translated keys. */
  lemma RenamedPairs<V>(table: map<string, string>, d: Dict<string, V>, i: nat)
    requires i < |d|
    ensures RenameKeys(Rename(table), d)[i] == (GetIf(d[i].0, table), d[i].1)
  {
  }

  /** On a dict whose keys the table does not merge, only the keys change:
      each entry keeps its value and its place. */
  lemma MapDictKeepsValues<V>(table: map<string, string>, d: Dict<string, V>)
    requires Valid(d)
    requires forall i, j :: 0 <= i < j < |d| ==> GetIf(d[i].0, table) != GetIf(d[j].0, table)
    ensures MapWithDict(table, DictOf(d)).value.entries
            == seq(|d|, i requires 0 <= i < |d| => (GetIf(d[i].0, table), d[i].1))
  {
    KeyMapInjective(Rename(table), d);
  }

  /** Translating twice is translating once when no translated name is
      itself a key, as for `YearTable`. */
  lemma GetIfIdempotent(x: string, table: map<string, string>)
    requires forall k :: k in table ==> table[k] !in table
    ensures GetIf(GetIf(x, table), table) == GetIf(x, table)
  {
  }

  lemma YearTableIdempotent(x: string)
    ensures GetIf(GetIf(x, YearTable), YearTable) == GetIf(x, YearTable)
  {
    GetIfIdempotent(x, YearTable);
  }

  /** `year` and `yr` both become `yr`: no inverse can give back both, so a
      round trip holds only for names other than `yr`. */
  lemma YearTableNotInjective()
    ensures GetIf("year", YearTable) == GetIf("yr", YearTable) == "yr"
  {
  }

  /** A filter naming both `year` and `yr` loses the `year` entry: `keymap`
      sends both keys to `yr` and the later value wins. */
  lemma YearTableMergesFilterKeys(a: seq<string>, b: seq<string>)
    ensures MapWithDict(YearTable, DictOf([("year", a), ("yr", b)])) == Some(DictOf([("yr", b)]))
  {
    var f := Rename(YearTable);
    var d := [("year", a), ("yr", b)];
    assert f("year") == "yr" && f("yr") == "yr";
    KeyMapColliding(f, d, "yr");
  }
}
