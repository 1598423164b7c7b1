/** The `cytoolz` pipeline steps the ETL parsers are built from: `filter`,
    `mapcat`, and a `map` whose function may raise, which stops the
    pipeline at the first element that raises. */
module Seqs {
  import opened Common

  /** `filter(p, xs)` */
  function Filter<T(==,!new)>(xs: seq<T>, p: T -> bool): (r: seq<T>)
    ensures |r| <= |xs|
    ensures forall x :: x in r <==> x in xs && p(x)
  {
    if xs == [] then []
    else
      assert forall x :: x in xs <==> x == xs[0] || x in xs[1..];
      (if p(xs[0]) then [xs[0]] else []) + Filter(xs[1..], p)
  }

  /** `map(f, xs)` */
  function Map<A, B>(xs: seq<A>, f: A -> B): (r: seq<B>)
    ensures |r| == |xs| && forall i :: 0 <= i < |xs| ==> r[i] == f(xs[i])
  {
    if xs == [] then [] else [f(xs[0])] + Map(xs[1..], f)
  }

  /** `mapcat(f, xs)`: the results of `f` concatenated in order. */
  function FlatMap<A, B>(xs: seq<A>, f: A -> seq<B>): seq<B> {
    if xs == [] then [] else f(xs[0]) + FlatMap(xs[1..], f)
  }

  /** Every result of `f` on an element appears in the concatenation ... */
  lemma {:induction false} FlatMapIn<A, B>(xs: seq<A>, f: A -> seq<B>, x: A, y: B)
    requires x in xs && y in f(x)
    ensures y in FlatMap(xs, f)
  {
    if x != xs[0] {
      assert x in xs[1..];
      FlatMapIn(xs[1..], f, x, y);
    }
  }

  /** ... and nothing else does. */
  lemma {:induction false} FlatMapFrom<A, B>(xs: seq<A>, f: A -> seq<B>, y: B)
    requires y in FlatMap(xs, f)
    ensures exists x :: x in xs && y in f(x)
  {
    if y !in f(xs[0]) {
      FlatMapFrom(xs[1..], f, y);
      var x :| x in xs[1..] && y in f(x);
      assert x in xs;
    }
  }

  /** `list(map(f, xs))` where `f` may raise: every result in order, or
      the error of the first element that fails. */
  function Traverse<A, B, E>(xs: seq<A>, f: A -> Result<B, E>): (r: Result<seq<B>, E>)
    ensures r.Ok? <==> forall x :: x in xs ==> f(x).Ok?
    ensures r.Ok? ==> |r.value| == |xs| && forall i :: 0 <= i < |xs| ==> f(xs[i]) == Ok(r.value[i])
    ensures r.Err? ==> exists i :: 0 <= i < |xs| && f(xs[i]) == Err(r.error) && forall j :: 0 <= j < i ==> f(xs[j]).Ok?
  {
    if xs == [] then Ok([])
    else
      match f(xs[0])
      case Err(e) => Err(e)
      case Ok(y) =>
        var rest := Traverse(xs[1..], f);
        if rest.Err? then
          assert exists i :: 0 <= i < |xs| && f(xs[i]) == Err(rest.error) && forall j :: 0 <= j < i ==> f(xs[j]).Ok? by {
            var i :| 0 <= i < |xs[1..]| && f(xs[1..][i]) == Err(rest.error) && forall j :: 0 <= j < i ==> f(xs[1..][j]).Ok?;
            assert f(xs[i + 1]) == Err(rest.error);
            assert forall j :: 1 <= j < i + 1 ==> f(xs[j]) == f(xs[1..][j - 1]);
          }
          Err(rest.error)
        else
          assert forall i :: 1 <= i < |xs| ==> f(xs[i]) == f(xs[1..][i - 1]);
          assert forall x :: x in xs ==> x == xs[0] || x in xs[1..];
          Ok([y] + rest.value)
  }

  /** The elements of `a + b`: those of `a`, then those of `b`. */
  lemma ConcatParts<T>(a: seq<T>, b: seq<T>)
    ensures |a + b| == |a| + |b|
    ensures forall i :: 0 <= i < |a| ==> (a + b)[i] == a[i]
    ensures forall i :: 0 <= i < |b| ==> (a + b)[|a| + i] == b[i]
  {
  }

  /** `list(map(f, xs))` raises exactly when some element raises. */
  lemma TraverseFails<A, B, E>(xs: seq<A>, f: A -> Result<B, E>)
    ensures Traverse(xs, f).Err? <==> exists x :: x in xs && f(x).Err?
  {
  }

  /** `lt` orders `T` strictly and totally. */
  ghost predicate StrictTotalOrder<T(!new)>(lt: (T, T) -> bool) {
    && (forall a :: !lt(a, a))
    && (forall a, b, c :: lt(a, b) && lt(b, c) ==> lt(a, c))
    && (forall a, b :: a == b || lt(a, b) || lt(b, a))
  }

  /** Ascending without repeats. */
  predicate StrictlySorted<T>(xs: seq<T>, lt: (T, T) -> bool) {
    forall i, j :: 0 <= i < j < |xs| ==> lt(xs[i], xs[j])
  }

  function Insert<T(==,!new)>(x: T, xs: seq<T>, lt: (T, T) -> bool): (r: seq<T>)
    requires StrictTotalOrder(lt) && StrictlySorted(xs, lt)
    ensures StrictlySorted(r, lt)
    ensures forall y :: y in r <==> y == x || y in xs
  {
    if xs == [] then [x]
    else if x == xs[0] then xs
    else if lt(x, xs[0]) then [x] + xs
    else
      var rest := Insert(x, xs[1..], lt);
      assert forall y :: y in xs <==> y == xs[0] || y in xs[1..];
      assert forall y :: y in rest ==> lt(xs[0], y);
      [xs[0]] + rest
  }

  /** `sorted(set(xs))` */
  function SortedSet<T(==,!new)>(xs: seq<T>, lt: (T, T) -> bool): (r: seq<T>)
    requires StrictTotalOrder(lt)
    ensures StrictlySorted(r, lt)
    ensures forall y :: y in r <==> y in xs
  {
    if xs == [] then []
    else
      assert forall y :: y in xs <==> y == xs[0] || y in xs[1..];
      Insert(xs[0], SortedSet(xs[1..], lt), lt)
  }

  /** A sorted list without repeats is determined by its elements: there
      is only one way to list a set in order. */
  lemma {:induction false} SortedUnique<T(!new)>(a: seq<T>, b: seq<T>, lt: (T, T) -> bool)
    requires StrictTotalOrder(lt)
    requires StrictlySorted(a, lt) && StrictlySorted(b, lt)
    requires forall y :: y in a <==> y in b
    ensures a == b
  {
    if a == [] || b == [] {
      HeadIn(a);
      HeadIn(b);
    } else {
      var x, y := a[0], b[0];
      assert x in b && y in a;
      var i :| 0 <= i < |a| && a[i] == y;
      var j :| 0 <= j < |b| && b[j] == x;
      assert x == y || lt(x, y);
      assert x == y || lt(y, x);
      forall z ensures z in a[1..] <==> z in b[1..] {
        assert b == [y] + b[1..] && a == [x] + a[1..];
        if z in a[1..] {
          var i :| 0 <= i < |a[1..]| && a[1..][i] == z;
          assert lt(x, a[i + 1]);
          assert z in b && z != y;
        }
        if z in b[1..] {
          var j :| 0 <= j < |b[1..]| && b[1..][j] == z;
          assert lt(y, b[j + 1]);
          assert z in a && z != x;
        }
      }
      SortedUnique(a[1..], b[1..], lt);
    }
  }

  lemma HeadIn<T>(a: seq<T>)
    ensures |a| > 0 ==> a[0] in a
  {
  }
}
