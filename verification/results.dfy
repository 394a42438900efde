/** Optional values, results with an error path, and the two list combinators the checker
    is built from: keeping the elements that pass a test, and applying a step that may fail. */
module Results {

  datatype Option<+T> = None | Some(value: T)

  /** The outcome of a step of the checker that may raise: a value, or the error it raises. */
  datatype Result<+T, +E> = Ok(value: T) | Err(error: E)

  /** Applies `f` to every element of `xs` in order, as a Python loop or list comprehension
      whose body may raise: the first element on which `f` fails decides the error, and the
      elements after it are never looked at. */
  function MapAll<A, B, E>(xs: seq<A>, f: A -> Result<B, E>): (r: Result<seq<B>, E>)
    ensures r.Ok? <==> forall i :: 0 <= i < |xs| ==> f(xs[i]).Ok?
    ensures r.Ok? ==> |r.value| == |xs| && forall i :: 0 <= i < |xs| ==> f(xs[i]) == Ok(r.value[i])
    ensures r.Err? ==> exists i :: 0 <= i < |xs| && f(xs[i]) == Err(r.error) &&
                                  forall j :: 0 <= j < i ==> f(xs[j]).Ok?
  {
    if xs == [] then Ok([])
    else
      var n := |xs| - 1;
      match MapAll(xs[..n], f)
      case Err(e) =>
        assert forall i :: 0 <= i < n ==> xs[..n][i] == xs[i];
        Err(e)
      case Ok(ys) =>
        assert forall i :: 0 <= i < n ==> xs[..n][i] == xs[i];
        match f(xs[n])
        case Err(e) => Err(e)
        case Ok(y) => Ok(ys + [y])
  }

  /** Once a prefix of the list has failed, the whole list fails with the same error. */
  lemma MapAllPrefixFails<A, B, E>(xs: seq<A>, k: nat, f: A -> Result<B, E>)
    requires k <= |xs|
    requires MapAll(xs[..k], f).Err?
    ensures MapAll(xs, f) == MapAll(xs[..k], f)
  {
    var e := MapAll(xs[..k], f).error;
    var i :| 0 <= i < k && f(xs[..k][i]) == Err(e) && forall j :: 0 <= j < i ==> f(xs[..k][j]).Ok?;
    assert f(xs[i]) == Err(e);
    var r := MapAll(xs, f);
    var i' :| 0 <= i' < |xs| && f(xs[i']) == Err(r.error) && forall j :: 0 <= j < i' ==> f(xs[j]).Ok?;
    assert forall j :: 0 <= j < i ==> f(xs[j]).Ok? by {
      forall j | 0 <= j < i ensures f(xs[j]).Ok? { assert xs[..k][j] == xs[j]; }
    }
    assert i' == i;
  }

  /** The first element that `f` refuses decides the error. */
  lemma MapAllFirstFails<A, B, E>(xs: seq<A>, i: nat, f: A -> Result<B, E>)
    requires i < |xs| && f(xs[i]).Err?
    requires forall j :: 0 <= j < i ==> f(xs[j]).Ok?
    ensures MapAll(xs, f) == Err(f(xs[i]).error)
  {
  }

  /** A step of a loop that applies `f` in order: the next element's value is appended. */
  lemma MapAllStepGoesOn<A, B, E>(xs: seq<A>, i: nat, f: A -> Result<B, E>, ys: seq<B>)
    requires i < |xs| && MapAll(xs[..i], f) == Ok(ys) && f(xs[i]).Ok?
    ensures MapAll(xs[..i + 1], f) == Ok(ys + [f(xs[i]).value])
  {
    assert xs[..i + 1] == xs[..i] + [xs[i]];
    MapAllSnoc(xs[..i], xs[i], f);
  }

  /** A step of a loop that applies `f` in order: the next element fails, and its error is
      the result. */
  lemma MapAllStepFails<A, B, E>(xs: seq<A>, i: nat, f: A -> Result<B, E>)
    requires i < |xs| && MapAll(xs[..i], f).Ok? && f(xs[i]).Err?
    ensures MapAll(xs, f) == Err(f(xs[i]).error)
  {
    assert forall j :: 0 <= j < i ==> xs[..i][j] == xs[j];
    MapAllFirstFails(xs, i, f);
  }

  /** Extending the list by one element: the result extends too, unless it has already
      failed or the new element fails. */
  lemma MapAllSnoc<A, B, E>(xs: seq<A>, x: A, f: A -> Result<B, E>)
    ensures MapAll(xs + [x], f) ==
      match MapAll(xs, f)
      case Err(e) => Err(e)
      case Ok(ys) => (match f(x) case Err(e) => Err(e) case Ok(y) => Ok(ys + [y]))
  {
  }

  /** A step that succeeds on every element with the values `ys` maps the list to `ys`. */
  lemma MapAllOfValues<A, B, E>(xs: seq<A>, f: A -> Result<B, E>, ys: seq<B>)
    requires |ys| == |xs|
    requires forall i :: 0 <= i < |xs| ==> f(xs[i]) == Ok(ys[i])
    ensures MapAll(xs, f) == Ok(ys)
  {
    var r := MapAll(xs, f);
    assert r.Ok?;
    assert r.value == ys;
  }

  /** Two lists on which `f` succeeds everywhere: so it does on their concatenation. */
  lemma MapAllAppend<A, B, E>(xs: seq<A>, ys: seq<A>, f: A -> Result<B, E>)
    requires MapAll(xs, f).Ok? && MapAll(ys, f).Ok?
    ensures MapAll(xs + ys, f) == Ok(MapAll(xs, f).value + MapAll(ys, f).value)
  {
    var a := MapAll(xs, f).value;
    var b := MapAll(ys, f).value;
    ValuesAppend(xs, ys, f, a, b);
    MapAllOfValues(xs + ys, f, a + b);
  }

  /** Values of `f` element by element on two lists are its values on their concatenation. */
  lemma ValuesAppend<A, B, E>(xs: seq<A>, ys: seq<A>, f: A -> Result<B, E>, a: seq<B>, b: seq<B>)
    requires |a| == |xs| && forall i :: 0 <= i < |xs| ==> f(xs[i]) == Ok(a[i])
    requires |b| == |ys| && forall i :: 0 <= i < |ys| ==> f(ys[i]) == Ok(b[i])
    ensures forall i :: 0 <= i < |xs + ys| ==> f((xs + ys)[i]) == Ok((a + b)[i])
  {
  }

  /** The lists of `xss` one after the other. */
  function Flatten<T>(xss: seq<seq<T>>): (r: seq<T>)
  {
    if xss == [] then [] else var n := |xss| - 1; Flatten(xss[..n]) + xss[n]
  }

  /** Flattening works piecewise. */
  lemma {:induction false} FlattenAppend<T>(xss: seq<seq<T>>, yss: seq<seq<T>>)
    ensures Flatten(xss + yss) == Flatten(xss) + Flatten(yss)
  {
    if yss == [] {
      assert xss + yss == xss;
    } else {
      var n := |yss| - 1;
      assert (xss + yss)[..|xss| + n] == xss + yss[..n];
      FlattenAppend(xss, yss[..n]);
    }
  }

  /** Every element of the flattened list comes from one of the lists. */
  lemma {:induction false} FlattenFrom<T>(xss: seq<seq<T>>, k: nat)
    requires k < |Flatten(xss)|
    ensures exists i :: 0 <= i < |xss| && Flatten(xss)[k] in xss[i]
  {
    var n := |xss| - 1;
    var prior := Flatten(xss[..n]);
    if k < |prior| {
      FlattenFrom(xss[..n], k);
      var i :| 0 <= i < n && prior[k] in xss[..n][i];
      assert xss[..n][i] == xss[i];
    } else {
      assert Flatten(xss)[k] == xss[n][k - |prior|];
    }
  }

  /** `[x for x in xs if p(x)]`. */
  function Filter<T>(xs: seq<T>, p: T -> bool): (r: seq<T>)
    ensures |r| <= |xs|
    ensures forall i :: 0 <= i < |r| ==> p(r[i]) && r[i] in xs
    ensures forall i :: 0 <= i < |xs| && p(xs[i]) ==> xs[i] in r
  {
    if xs == [] then []
    else
      var n := |xs| - 1;
      assert xs == xs[..n] + [xs[n]];
      Filter(xs[..n], p) + (if p(xs[n]) then [xs[n]] else [])
  }

  /** Filtering works piecewise, so it keeps the order of the elements it keeps. */
  lemma {:induction false} FilterAppend<T>(xs: seq<T>, ys: seq<T>, p: T -> bool)
    ensures Filter(xs + ys, p) == Filter(xs, p) + Filter(ys, p)
  {
    if ys == [] {
      assert xs + ys == xs;
    } else {
      var n := |ys| - 1;
      var zs := xs + ys;
      var last := if p(ys[n]) then [ys[n]] else [];
      assert zs[..|xs| + n] == xs + ys[..n] && zs[|xs| + n] == ys[n];
      assert Filter(ys, p) == Filter(ys[..n], p) + last;
      assert Filter(zs, p) == Filter(xs + ys[..n], p) + last;
      FilterAppend(xs, ys[..n], p);
      assert Filter(xs, p) + Filter(ys[..n], p) + last == Filter(xs, p) + (Filter(ys[..n], p) + last);
    }
  }

  /** `xs.count(x)`. */
  function Count<T(==)>(xs: seq<T>, x: T): (n: nat)
    ensures n <= |xs|
    ensures n == 0 <==> x !in xs
  {
    if xs == [] then 0
    else
      var k := |xs| - 1;
      assert xs == xs[..k] + [xs[k]];
      Count(xs[..k], x) + (if xs[k] == x then 1 else 0)
  }

  /** Counting works piecewise. */
  lemma {:induction false} CountAppend<T>(xs: seq<T>, ys: seq<T>, x: T)
    ensures Count(xs + ys, x) == Count(xs, x) + Count(ys, x)
  {
    if ys == [] {
      assert xs + ys == xs;
    } else {
      var n := |ys| - 1;
      assert (xs + ys)[..|xs| + n] == xs + ys[..n];
      CountAppend(xs, ys[..n], x);
    }
  }

  /** The values held by the `Some` elements, in order. */
  function Somes<T>(xs: seq<Option<T>>): (r: seq<T>)
    ensures |r| <= |xs|
    ensures forall i :: 0 <= i < |xs| && xs[i].Some? ==> xs[i].value in r
    ensures forall y :: y in r ==> Some(y) in xs
  {
    if xs == [] then []
    else
      var n := |xs| - 1;
      assert xs == xs[..n] + [xs[n]];
      Somes(xs[..n]) + (if xs[n].Some? then [xs[n].value] else [])
  }

  /** One more optional value: kept when it is present. */
  lemma SomesSnoc<T>(xs: seq<Option<T>>, x: Option<T>)
    ensures Somes(xs + [x]) == Somes(xs) + (if x.Some? then [x.value] else [])
  {
  }

  /** `dict(pairs)`: each key mapped to the value of its last pair. */
  function DictOf<K, V>(pairs: seq<(K, V)>): (m: map<K, V>)
    ensures forall i :: 0 <= i < |pairs| ==> pairs[i].0 in m
  {
    if pairs == [] then map[]
    else
      var n := |pairs| - 1;
      var m := DictOf(pairs[..n]);
      assert forall i :: 0 <= i < n ==> pairs[..n][i] == pairs[i];
      m[pairs[n].0 := pairs[n].1]
  }

  /** What `dict(pairs)` holds under a key comes from the last pair with that key. */
  lemma {:induction false} DictOfLastWins<K, V>(pairs: seq<(K, V)>, k: K)
    requires k in DictOf(pairs)
    ensures exists i :: 0 <= i < |pairs| && pairs[i] == (k, DictOf(pairs)[k]) &&
                        forall j :: i < j < |pairs| ==> pairs[j].0 != k
  {
    var n := |pairs| - 1;
    if pairs[n].0 == k {
      assert pairs[n] == (k, DictOf(pairs)[k]);
    } else {
      var prefix := pairs[..n];
      DictOfLastWins(prefix, k);
      var i :| 0 <= i < n && prefix[i] == (k, DictOf(prefix)[k]) &&
               forall j :: i < j < n ==> prefix[j].0 != k;
      assert pairs[i] == (k, DictOf(pairs)[k]);
      assert forall j :: i < j < |pairs| ==> pairs[j].0 != k by {
        forall j | i < j < |pairs| ensures pairs[j].0 != k {
          if j < n {
            assert prefix[j] == pairs[j];
          }
        }
      }
    }
  }

  /** Filtering one more element of the list. */
  lemma FilterSnoc<T>(xs: seq<T>, i: nat, p: T -> bool)
    requires i < |xs|
    ensures Filter(xs[..i + 1], p) == Filter(xs[..i], p) + (if p(xs[i]) then [xs[i]] else [])
  {
    assert xs[..i + 1][..i] == xs[..i];
  }

  /** A step of `CollectParsed` that fails: the error of the element at `i` is also the
      error of `MapAll` on the whole filtered list, whatever follows. */
  lemma CollectStepFails<A, B, E>(xs: seq<A>, i: nat, keep: A -> bool,
                                  parse: A -> Result<B, E>, parsed: seq<B>)
    requires i < |xs| && keep(xs[i]) && parse(xs[i]).Err?
    requires MapAll(Filter(xs[..i], keep), parse) == Ok(parsed)
    ensures MapAll(Filter(xs, keep), parse) == Err(parse(xs[i]).error)
  {
    var before := Filter(xs[..i], keep);
    FilterSnoc(xs, i, keep);
    assert Filter(xs[..i + 1], keep) == before + [xs[i]];
    MapAllSnocFails(before, xs[i], parse);
    PrefixSuffix(xs, i + 1);
    FilteredPrefixFails(xs[..i + 1], xs[i + 1..], keep, parse);
  }

  /** A list is its first `k` elements followed by the rest. */
  lemma PrefixSuffix<T>(xs: seq<T>, k: nat)
    requires k <= |xs|
    ensures xs[..k] + xs[k..] == xs
  {
  }

  /** Concatenation is associative. */
  lemma AppendAssoc<T>(a: seq<T>, b: seq<T>, c: seq<T>)
    ensures (a + b) + c == a + (b + c)
  {
  }

  /** A sequence is its elements before `k`, the one at `k`, and those after. */
  lemma PickOut<T>(xs: seq<T>, k: nat)
    requires k < |xs|
    ensures xs[..k] + [xs[k]] + xs[k + 1..] == xs
    ensures multiset(xs[..k] + xs[k + 1..]) == multiset(xs) - multiset{xs[k]}
  {
  }

  /** An element that fails after a list that does not: its error is the result. */
  lemma MapAllSnocFails<A, B, E>(xs: seq<A>, x: A, f: A -> Result<B, E>)
    requires MapAll(xs, f).Ok? && f(x).Err?
    ensures MapAll(xs + [x], f) == Err(f(x).error)
  {
  }

  /** Once the kept elements of `a` fail to parse, so do those of `a + b`, with the same
      error. */
  lemma FilteredPrefixFails<A, B, E>(a: seq<A>, b: seq<A>, keep: A -> bool, parse: A -> Result<B, E>)
    requires MapAll(Filter(a, keep), parse).Err?
    ensures MapAll(Filter(a + b, keep), parse) == MapAll(Filter(a, keep), parse)
  {
    var before := Filter(a, keep);
    FilterAppend(a, b, keep);
    assert Filter(a + b, keep)[..|before|] == before;
    MapAllPrefixFails(Filter(a + b, keep), |before|, parse);
  }

  /** A step of `CollectParsed` that goes on: the element at `i` is skipped or its parse is
      appended. */
  lemma CollectStepGoesOn<A, B, E>(xs: seq<A>, i: nat, keep: A -> bool,
                                   parse: A -> Result<B, E>, parsed: seq<B>)
    requires i < |xs| && (keep(xs[i]) ==> parse(xs[i]).Ok?)
    requires MapAll(Filter(xs[..i], keep), parse) == Ok(parsed)
    ensures MapAll(Filter(xs[..i + 1], keep), parse) ==
              Ok(if keep(xs[i]) then parsed + [parse(xs[i]).value] else parsed)
  {
    FilterSnoc(xs, i, keep);
    if keep(xs[i]) {
      MapAllSnoc(Filter(xs[..i], keep), xs[i], parse);
    } else {
      assert Filter(xs[..i + 1], keep) == Filter(xs[..i], keep);
    }
  }

  /** A loop over the lines of a file that parses every line passing `keep` and stops at the
      first line that fails to parse. */
  method CollectParsed<A, B, E>(xs: seq<A>, keep: A -> bool, parse: A -> Result<B, E>)
    returns (r: Result<seq<B>, E>)
    ensures r == MapAll(Filter(xs, keep), parse)
  {
    var parsed: seq<B> := [];
    var i := 0;
    while i < |xs|
      invariant 0 <= i <= |xs|
      invariant MapAll(Filter(xs[..i], keep), parse) == Ok(parsed)
    {
      if keep(xs[i]) {
        var item := parse(xs[i]);
        if item.Err? {
          CollectStepFails(xs, i, keep, parse, parsed);
          return Err(item.error);
        }
        CollectStepGoesOn(xs, i, keep, parse, parsed);
        parsed := parsed + [item.value];
      } else {
        CollectStepGoesOn(xs, i, keep, parse, parsed);
      }
      i := i + 1;
    }
    assert xs[..i] == xs;
    r := Ok(parsed);
  }
}
