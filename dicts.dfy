/** Python's `dict` (and `OrderedDict`): entries in insertion order with
    distinct keys. Assigning to an existing key replaces its value where it
    stands; a new key is appended. `dict(pairs)` keeps, for each key, the
    position of its first pair and the value of its last. */
module Dicts {
  import opened Common

  type Dict<K, V> = seq<(K, V)>

  function Keys<K, V>(d: Dict<K, V>): (ks: seq<K>)
    ensures |ks| == |d|
    ensures forall i :: 0 <= i < |d| ==> ks[i] == d[i].0
  {
    if d == [] then [] else [d[0].0] + Keys(d[1..])
  }

  predicate Distinct<T(==)>(s: seq<T>) {
    forall i, j :: 0 <= i < j < |s| ==> s[i] != s[j]
  }

  /** What every Python dict satisfies: no key twice. */
  predicate Valid<K(==,!new), V>(d: Dict<K, V>) {
    Distinct(Keys(d))
  }

  /** `d.get(k)`: `None` when `k` is not a key. */
  function Get<K(==,!new), V>(d: Dict<K, V>, k: K): (r: Option<V>)
    ensures r.None? <==> k !in Keys(d)
    ensures r.Some? ==> exists i :: 0 <= i < |d| && d[i] == (k, r.value)
  {
    if d == [] then None
    else if d[0].0 == k then Some(d[0].1)
    else
      var r := Get(d[1..], k);
      assert Keys(d) == [d[0].0] + Keys(d[1..]);
      assert r.Some? ==> exists i :: 0 <= i < |d| && d[i] == (k, r.value) by {
        if r.Some? {
          var i :| 0 <= i < |d[1..]| && d[1..][i] == (k, r.value);
          assert d[i + 1] == (k, r.value);
        }
      }
      r
  }

  /** `d[k] = v` */
  function Assign<K(==,!new), V>(d: Dict<K, V>, k: K, v: V): (r: Dict<K, V>)
    ensures Keys(r) == if k in Keys(d) then Keys(d) else Keys(d) + [k]
    ensures Get(r, k) == Some(v)
    ensures forall k' :: k' != k ==> Get(r, k') == Get(d, k')
  {
    if d == [] then [(k, v)]
    else if d[0].0 == k then
      var r := [(k, v)] + d[1..];
      KeysCons((k, v), d[1..]);
      GetCons((k, v), d[1..], k);
      assert forall k' :: k' != k ==> Get(r, k') == Get(d, k') by {
        forall k' | k' != k ensures Get(r, k') == Get(d, k') {
          GetCons((k, v), d[1..], k');
        }
      }
      r
    else
      var rest := Assign(d[1..], k, v);
      var r := [d[0]] + rest;
      KeysCons(d[0], rest);
      ConsKeys(d[0].0, Keys(d[1..]), Keys(rest), k);
      assert forall k' :: Get(r, k') == if d[0].0 == k' then Some(d[0].1) else Get(rest, k') by {
        forall k' ensures Get(r, k') == if d[0].0 == k' then Some(d[0].1) else Get(rest, k') {
          GetCons(d[0], rest, k');
        }
      }
      r
  }

  lemma AssignValid<K(!new), V>(d: Dict<K, V>, k: K, v: V)
    requires Valid(d)
    ensures Valid(Assign(d, k, v))
  {
    if k !in Keys(d) {
      DistinctSnoc(Keys(d), k);
    }
  }

  lemma DistinctSnoc<T>(s: seq<T>, x: T)
    requires Distinct(s) && x !in s
    ensures Distinct(s + [x])
  {
    forall i, j | 0 <= i < j < |s| + 1 ensures (s + [x])[i] != (s + [x])[j] {
      if j == |s| {
        assert (s + [x])[i] == s[i];
      }
    }
  }

  /** The key list after an assignment behind a different first key. */
  lemma ConsKeys<K>(a: K, ks: seq<K>, rest: seq<K>, k: K)
    requires a != k
    requires rest == if k in ks then ks else ks + [k]
    ensures [a] + rest == if k in [a] + ks then [a] + ks else [a] + ks + [k]
  {
    assert k in [a] + ks <==> k in ks;
  }

  lemma DistinctCons<T>(x: T, s: seq<T>)
    requires Distinct(s) && x !in s
    ensures Distinct([x] + s)
  {
    forall i, j | 0 <= i < j < |s| + 1 ensures ([x] + s)[i] != ([x] + s)[j] {
      assert ([x] + s)[j] == s[j - 1];
      if i > 0 {
        assert ([x] + s)[i] == s[i - 1];
      }
    }
  }

  lemma KeysCons<K, V>(e: (K, V), d: Dict<K, V>)
    ensures Keys([e] + d) == [e.0] + Keys(d)
  {
    assert ([e] + d)[1..] == d;
  }

  /** The value of the last pair for `k`: the reference for `dict(pairs)`. */
  function LastValue<K(==,!new), V>(ps: seq<(K, V)>, k: K): Option<V> {
    if ps == [] then None
    else if ps[|ps| - 1].0 == k then Some(ps[|ps| - 1].1)
    else LastValue(ps[..|ps| - 1], k)
  }

  /** The keys of `ks` in order of first appearance. */
  function Dedup<K(==,!new)>(ks: seq<K>): (r: seq<K>)
    ensures Distinct(r)
    ensures forall k :: k in r <==> k in ks
  {
    if ks == [] then []
    else
      var r := Dedup(ks[..|ks| - 1]);
      assert forall k :: k in ks <==> k in ks[..|ks| - 1] || k == ks[|ks| - 1] by {
        assert ks == ks[..|ks| - 1] + [ks[|ks| - 1]];
      }
      if ks[|ks| - 1] in r then r else r + [ks[|ks| - 1]]
  }

  /** `dict(pairs)` */
  function FromPairs<K(==,!new), V>(ps: seq<(K, V)>): (r: Dict<K, V>)
    ensures Valid(r)
  {
    if ps == [] then []
    else
      var d := FromPairs(ps[..|ps| - 1]);
      AssignValid(d, ps[|ps| - 1].0, ps[|ps| - 1].1);
      Assign(d, ps[|ps| - 1].0, ps[|ps| - 1].1)
  }

  /** `dict(pairs)` maps every key to the value of its last pair ... */
  lemma {:induction false} FromPairsGet<K(!new), V>(ps: seq<(K, V)>, k: K)
    ensures Get(FromPairs(ps), k) == LastValue(ps, k)
  {
    if ps != [] {
      FromPairsGet(ps[..|ps| - 1], k);
    }
  }

  /** ... and lists the keys in order of first appearance. */
  lemma {:induction false} FromPairsKeys<K(!new), V>(ps: seq<(K, V)>)
    ensures Keys(FromPairs(ps)) == Dedup(Keys(ps))
  {
    if ps != [] {
      var init := ps[..|ps| - 1];
      FromPairsKeys(init);
      assert Keys(ps)[..|ps| - 1] == Keys(init);
    }
  }

  lemma {:induction false} GetAppend<K(!new), V>(d: Dict<K, V>, e: (K, V), k: K)
    ensures Get(d + [e], k) == if k in Keys(d) then Get(d, k) else if e.0 == k then Some(e.1) else None
  {
    if d != [] {
      assert (d + [e])[1..] == d[1..] + [e];
      assert Keys(d) == [d[0].0] + Keys(d[1..]);
      GetAppend(d[1..], e, k);
    }
  }

  /** In a dict, `Get` and `LastValue` agree: there is only one pair per key. */
  lemma {:induction false} ValidLastValue<K(!new), V>(d: Dict<K, V>, k: K)
    requires Valid(d)
    ensures LastValue(d, k) == Get(d, k)
  {
    if d != [] {
      var init := d[..|d| - 1];
      var e := d[|d| - 1];
      assert d == init + [e];
      ValidInit(d);
      ValidLastValue(init, k);
      GetAppend(init, e, k);
    }
  }

  lemma {:induction false} LastValueAppend<K(!new), V>(a: seq<(K, V)>, b: seq<(K, V)>, k: K)
    ensures LastValue(a + b, k) == if k in Keys(b) then LastValue(b, k) else LastValue(a, k)
    decreases |b|
  {
    if b == [] {
      AppendNil(a);
    } else {
      var init, e := b[..|b| - 1], b[|b| - 1];
      AppendSnoc(a, b);
      InitLast(b);
      LastValueSnoc(a + init, e, k);
      LastValueSnoc(init, e, k);
      KeysSnoc(init, e);
      LastValueAppend(a, init, k);
    }
  }

  lemma LastValueSnoc<K(!new), V>(ps: seq<(K, V)>, e: (K, V), k: K)
    ensures LastValue(ps + [e], k) == if e.0 == k then Some(e.1) else LastValue(ps, k)
  {
    assert (ps + [e])[..|ps|] == ps;
  }

  lemma KeysSnoc<K, V>(d: Dict<K, V>, e: (K, V))
    ensures Keys(d + [e]) == Keys(d) + [e.0]
  {
  }

  /** `toolz.merge(a, b)` / `a.update(b)` on a copy: keys of `b` win. */
  function Merge<K(==,!new), V>(a: Dict<K, V>, b: Dict<K, V>): (r: Dict<K, V>)
    ensures Valid(r)
  {
    FromPairs(a + b)
  }

  lemma MergeGet<K(!new), V>(a: Dict<K, V>, b: Dict<K, V>, k: K)
    requires Valid(a) && Valid(b)
    ensures Get(Merge(a, b), k) == if k in Keys(b) then Get(b, k) else Get(a, k)
  {
    FromPairsGet(a + b, k);
    LastValueAppend(a, b, k);
    ValidLastValue(a, k);
    ValidLastValue(b, k);
  }

  /** `cytoolz.keymap(f, d)`: every key passed through `f`, values kept; when
      two keys collide the later entry's value wins. */
  function KeyMap<K(==,!new), V>(f: K -> K, d: Dict<K, V>): (r: Dict<K, V>)
    ensures Valid(r)
    ensures Keys(r) == Dedup(Keys(RenameKeys(f, d)))
    ensures forall k :: Get(r, k) == LastValue(RenameKeys(f, d), k)
  {
    var ps := RenameKeys(f, d);
    FromPairsKeys(ps);
    assert forall k :: Get(FromPairs(ps), k) == LastValue(ps, k) by {
      forall k ensures Get(FromPairs(ps), k) == LastValue(ps, k) {
        FromPairsGet(ps, k);
      }
    }
    FromPairs(ps)
  }

  /** The pairs `keymap` builds its dict from: every entry with its key
      passed through `f`, in order. */
  function RenameKeys<K, V>(f: K -> K, d: Dict<K, V>): (ps: seq<(K, V)>)
    ensures |ps| == |d| && forall i :: 0 <= i < |d| ==> ps[i] == (f(d[i].0), d[i].1)
  {
    seq(|d|, i requires 0 <= i < |d| => (f(d[i].0), d[i].1))
  }

  lemma {:induction false} AssignNew<K(!new), V>(d: Dict<K, V>, k: K, v: V)
    requires k !in Keys(d)
    ensures Assign(d, k, v) == d + [(k, v)]
  {
    if d != [] {
      assert Keys(d) == [d[0].0] + Keys(d[1..]);
      AssignNew(d[1..], k, v);
      ConsAppend(d, [(k, v)]);
    }
  }

  lemma InitLast<T>(s: seq<T>)
    requires s != []
    ensures s[..|s| - 1] + [s[|s| - 1]] == s
  {
  }

  /** Removing a dict's last entry leaves a dict without that key. */
  lemma ValidInit<K(!new), V>(d: Dict<K, V>)
    requires Valid(d) && d != []
    ensures Valid(d[..|d| - 1])
    ensures d[|d| - 1].0 !in Keys(d[..|d| - 1])
  {
    var init := d[..|d| - 1];
    assert Keys(init) == Keys(d)[..|d| - 1];
  }

  /** A dict is its own `dict(items)`. */
  lemma {:induction false} FromPairsOfValid<K(!new), V>(d: Dict<K, V>)
    requires Valid(d)
    ensures FromPairs(d) == d
  {
    if d != [] {
      var init, last := d[..|d| - 1], d[|d| - 1];
      ValidInit(d);
      FromPairsOfValid(init);
      AssignNew(init, last.0, last.1);
      FromPairsSnoc(init, last);
      InitLast(d);
    }
  }

  /** When `f` sends no two keys of `d` to the same key, `keymap` renames the
      keys where they stand and leaves every value and the order alone. */
  lemma KeyMapInjective<K(!new), V>(f: K -> K, d: Dict<K, V>)
    requires Valid(d)
    requires forall i, j :: 0 <= i < j < |d| ==> f(d[i].0) != f(d[j].0)
    ensures KeyMap(f, d) == RenameKeys(f, d)
  {
    var ps := RenameKeys(f, d);
    assert Valid(ps) by {
      forall i, j | 0 <= i < j < |ps| ensures Keys(ps)[i] != Keys(ps)[j] {
        assert Keys(ps)[i] == f(d[i].0) && Keys(ps)[j] == f(d[j].0);
      }
    }
    FromPairsOfValid(ps);
  }

  /** `dict([(k, x), (k, y)])` is `{k: y}`. */
  lemma SameKeyTwice<K(!new), V>(k: K, x: V, y: V)
    ensures FromPairs([(k, x), (k, y)]) == [(k, y)]
  {
    var ps := [(k, x), (k, y)];
    var one := [(k, x)];
    assert ps[..|ps| - 1] == one;
    assert one[..|one| - 1] == [];
    assert FromPairs(one) == Assign([], k, x);
    assert Assign([], k, x) == one;
    assert FromPairs(ps) == Assign(one, k, y);
    assert one[1..] == [];
    assert Assign(one, k, y) == [(k, y)] + one[1..];
  }

  /** Two entries whose keys `f` sends to the same key `k` become one entry
      holding the second value. */
  lemma KeyMapColliding<K(!new), V>(f: K -> K, d: Dict<K, V>, k: K)
    requires |d| == 2 && f(d[0].0) == k && f(d[1].0) == k
    ensures KeyMap(f, d) == [(k, d[1].1)]
  {
    var ps := RenameKeys(f, d);
    assert ps == [(k, d[0].1), (k, d[1].1)];
    SameKeyTwice(k, d[0].1, d[1].1);
  }

  /** `for k, v in pairs: d[k] = v` */
  function AssignAll<K(==,!new), V>(d: Dict<K, V>, ps: seq<(K, V)>): Dict<K, V>
    decreases |ps|
  {
    if ps == [] then d else AssignAll(Assign(d, ps[0].0, ps[0].1), ps[1..])
  }

  /** One more pair is one more assignment. */
  lemma FromPairsSnoc<K(!new), V>(ps: seq<(K, V)>, e: (K, V))
    ensures FromPairs(ps + [e]) == Assign(FromPairs(ps), e.0, e.1)
  {
    assert (ps + [e])[..|ps|] == ps;
  }

  /** Reading a dict's own pairs and then more pairs is reading all the
      pairs. */
  lemma {:induction false} FromPairsFlatten<K(!new), V>(xs: seq<(K, V)>, qs: seq<(K, V)>)
    ensures FromPairs(FromPairs(xs) + qs) == FromPairs(xs + qs)
    decreases |qs|
  {
    if qs == [] {
      AppendNil(FromPairs(xs));
      AppendNil(xs);
      FromPairsOfValid(FromPairs(xs));
    } else {
      var init, q := qs[..|qs| - 1], qs[|qs| - 1];
      AppendSnoc(FromPairs(xs), qs);
      AppendSnoc(xs, qs);
      FromPairsSnoc(FromPairs(xs) + init, q);
      FromPairsFlatten(xs, init);
      FromPairsSnoc(xs + init, q);
    }
  }

  /** Assigning pairs one at a time to a dict gives `dict(d.items() + pairs)`. */
  lemma {:induction false} AssignAllFromPairs<K(!new), V>(d: Dict<K, V>, ps: seq<(K, V)>)
    requires Valid(d)
    ensures AssignAll(d, ps) == FromPairs(d + ps)
    decreases |ps|
  {
    if ps == [] {
      AppendNil(d);
      FromPairsOfValid(d);
    } else {
      var e := ps[0];
      var d' := Assign(d, e.0, e.1);
      AssignValid(d, e.0, e.1);
      AssignAllFromPairs(d', ps[1..]);
      FromPairsOfValid(d);
      FromPairsSnoc(d, e);
      FromPairsFlatten(d + [e], ps[1..]);
      AppendCons(d, ps);
    }
  }

  lemma ConsAppend<T>(a: seq<T>, b: seq<T>)
    requires a != []
    ensures [a[0]] + (a[1..] + b) == a + b
  {
  }

  lemma AppendNil<T>(a: seq<T>)
    ensures a + [] == a
  {
  }

  lemma AppendSnoc<T>(a: seq<T>, b: seq<T>)
    requires b != []
    ensures a + b == (a + b[..|b| - 1]) + [b[|b| - 1]]
  {
  }

  lemma AppendCons<T>(a: seq<T>, b: seq<T>)
    requires b != []
    ensures a + [b[0]] + b[1..] == a + b
  {
  }

  /** Every entry of `Assign(d, k, v)` is `(k, v)` or an entry of `d`. */
  lemma {:induction false} AssignEntries<K(!new), V>(d: Dict<K, V>, k: K, v: V)
    ensures forall e :: e in Assign(d, k, v) ==> e == (k, v) || e in d
  {
    if d != [] && d[0].0 != k {
      AssignEntries(d[1..], k, v);
      assert forall e :: e in d[1..] ==> e in d;
    }
  }

  /** Every entry of `dict(pairs)` is one of the pairs. */
  lemma {:induction false} FromPairsEntries<K(!new), V>(ps: seq<(K, V)>)
    ensures forall e :: e in FromPairs(ps) ==> e in ps
  {
    if ps != [] {
      var init, last := ps[..|ps| - 1], ps[|ps| - 1];
      FromPairsEntries(init);
      AssignEntries(FromPairs(init), last.0, last.1);
      assert forall e :: e in init ==> e in ps;
    }
  }

  /** A key with a pair has a last value, and that value is one of its
      pairs. */
  lemma {:induction false} LastValueIn<K(!new), V>(ps: seq<(K, V)>, k: K)
    ensures LastValue(ps, k).Some? <==> k in Keys(ps)
    ensures LastValue(ps, k).Some? ==> (k, LastValue(ps, k).value) in ps
  {
    if ps != [] {
      var init, last := ps[..|ps| - 1], ps[|ps| - 1];
      assert Keys(ps) == Keys(init) + [last.0];
      if last.0 != k {
        LastValueIn(init, k);
        assert LastValue(ps, k) == LastValue(init, k);
        if LastValue(init, k).Some? {
          assert (k, LastValue(init, k).value) in init;
          assert init <= ps;
        }
      }
    }
  }

  /** A dict without its first entry is a dict that lacks the first key. */
  lemma ValidTail<K(!new), V>(d: Dict<K, V>)
    requires Valid(d) && d != []
    ensures Valid(d[1..]) && d[0].0 !in Keys(d[1..])
  {
    var tail := d[1..];
    assert forall i :: 0 <= i < |tail| ==> Keys(tail)[i] == Keys(d)[i + 1];
  }

  /** Looking a key up in a dict with one entry in front. */
  lemma GetCons<K(!new), V>(e: (K, V), d: Dict<K, V>, k: K)
    ensures Get([e] + d, k) == if e.0 == k then Some(e.1) else Get(d, k)
  {
    assert ([e] + d)[0] == e && ([e] + d)[1..] == d;
  }

  /** `ps[i]` is the last pair of `ps` with key `k`. */
  predicate LastAt<K(==), V>(ps: seq<(K, V)>, i: int, k: K) {
    0 <= i < |ps| && ps[i].0 == k && forall j :: i < j < |ps| ==> ps[j].0 != k
  }

  /** The value of the last pair with key `k` is what `LastValue` finds ... */
  lemma {:induction false} LastAtValue<K(!new), V>(ps: seq<(K, V)>, i: int, k: K)
    requires LastAt(ps, i, k)
    ensures LastValue(ps, k) == Some(ps[i].1)
    decreases |ps|
  {
    if i < |ps| - 1 {
      var init := ps[..|ps| - 1];
      assert ps[|ps| - 1].0 != k;
      assert LastAt(init, i, k) by {
        forall j | i < j < |init| ensures init[j].0 != k {
          assert init[j] == ps[j];
        }
      }
      LastAtValue(init, i, k);
    }
  }

  /** ... and whatever `LastValue` finds comes from such a pair. */
  lemma {:induction false} LastValueAt<K(!new), V>(ps: seq<(K, V)>, k: K)
    requires LastValue(ps, k).Some?
    ensures exists i :: LastAt(ps, i, k) && ps[i].1 == LastValue(ps, k).value
    decreases |ps|
  {
    if ps[|ps| - 1].0 == k {
      assert LastAt(ps, |ps| - 1, k);
    } else {
      var init := ps[..|ps| - 1];
      LastValueAt(init, k);
      var i :| LastAt(init, i, k) && init[i].1 == LastValue(init, k).value;
      assert ps[i] == init[i];
      assert LastAt(ps, i, k);
    }
  }

  lemma KeyOfPair<K(!new), V>(ps: seq<(K, V)>, k: K, v: V)
    requires (k, v) in ps
    ensures k in Keys(ps)
  {
    var i :| 0 <= i < |ps| && ps[i] == (k, v);
    assert Keys(ps)[i] == k;
  }
}
