/** Which segments of a proposed path are unique to it: those whose number occurs in no other
    path (`determine_unique_segments` and `determine_graph_segment_uniqueness`). Each path is
    reduced here to its list of unsigned segment numbers. */
module Uniqueness {
  import opened Results

  /** `paths[:i] + paths[i+1:]`: every path but the i-th, in order. */
  function Others<T>(paths: seq<T>, i: nat): (r: seq<T>)
    requires i < |paths|
    ensures |r| == |paths| - 1
    ensures forall j :: 0 <= j < |r| ==> r[j] == paths[if j < i then j else j + 1]
  {
    paths[..i] + paths[i + 1..]
  }

  /** Every path but the i-th is among the others. */
  lemma OthersContains<T>(paths: seq<T>, i: nat, j: nat)
    requires i < |paths| && j < |paths| && i != j
    ensures paths[j] in Others(paths, i)
  {
  }

  /** A number that none of the given paths contains. */
  predicate InNoPath(x: nat, others: seq<seq<nat>>)
  {
    forall k :: 0 <= k < |others| ==> x !in others[k]
  }

  /** The numbers of `own` that no other path contains, in order and with their repeats. */
  function UniqueIds(own: seq<nat>, others: seq<seq<nat>>): (r: seq<nat>)
    ensures |r| <= |own|
    ensures forall x :: x in r <==> x in own && InNoPath(x, others)
  {
    if own == [] then []
    else
      var n := |own| - 1;
      assert own == own[..n] + [own[n]];
      UniqueIds(own[..n], others) + (if InNoPath(own[n], others) then [own[n]] else [])
  }

  /** `[x for i, x in enumerate(xs) if flags[i]]`. */
  function Select(xs: seq<nat>, flags: seq<bool>): (r: seq<nat>)
    requires |flags| == |xs|
    ensures |r| <= |xs|
    ensures forall x :: x in r ==> exists k :: 0 <= k < |xs| && flags[k] && xs[k] == x
  {
    if xs == [] then []
    else
      var n := |xs| - 1;
      Select(xs[..n], flags[..n]) + (if flags[n] then [xs[n]] else [])
  }

  /** Selecting by the flags "occurs in no other path" keeps exactly the unique numbers. */
  lemma {:induction false} SelectUnique(own: seq<nat>, flags: seq<bool>, others: seq<seq<nat>>)
    requires |flags| == |own|
    requires forall k :: 0 <= k < |own| ==> flags[k] == InNoPath(own[k], others)
    ensures Select(own, flags) == UniqueIds(own, others)
  {
    if own != [] {
      var n := |own| - 1;
      SelectUnique(own[..n], flags[..n], others);
    }
  }

  /** A unique number keeps all its occurrences; any other number keeps none. */
  lemma {:induction false} UniqueIdsCount(own: seq<nat>, others: seq<seq<nat>>, x: nat)
    ensures Count(UniqueIds(own, others), x) == if InNoPath(x, others) then Count(own, x) else 0
  {
    if own != [] {
      var n := |own| - 1;
      var prefix := UniqueIds(own[..n], others);
      var last := if InNoPath(own[n], others) then [own[n]] else [];
      UniqueIdsCount(own[..n], others, x);
      CountAppend(prefix, last, x);
      assert own == own[..n] + [own[n]];
      CountAppend(own[..n], [own[n]], x);
      assert [own[n]][..0] == [] && last[..|last|] == last;
    }
  }

  /** One more number at the end of a path is kept at the end, when it is unique. */
  lemma UniqueIdsSnoc(own: seq<nat>, x: nat, others: seq<seq<nat>>)
    ensures UniqueIds(own + [x], others) == UniqueIds(own, others) + (if InNoPath(x, others) then [x] else [])
  {
  }

  /** The unique numbers keep the order of the path: those of a concatenation are those of
      the first part followed by those of the second. */
  lemma {:induction false} UniqueIdsAppend(a: seq<nat>, b: seq<nat>, others: seq<seq<nat>>)
    ensures UniqueIds(a + b, others) == UniqueIds(a, others) + UniqueIds(b, others)
    decreases |b|
  {
    if b == [] {
      assert a + b == a;
    } else {
      var n := |b| - 1;
      var init, x := b[..n], b[n];
      assert b == init + [x];
      assert a + b == (a + init) + [x];
      UniqueIdsSnoc(a + init, x, others);
      UniqueIdsSnoc(init, x, others);
      UniqueIdsAppend(a, init, others);
      AppendAssoc(UniqueIds(a, others), UniqueIds(init, others), if InNoPath(x, others) then [x] else []);
    }
  }

  /** A path that has no other path beside it: all of its numbers are unique. */
  lemma {:induction false} UniqueIdsAlone(own: seq<nat>)
    ensures UniqueIds(own, []) == own
  {
    if own != [] {
      var n := |own| - 1;
      UniqueIdsAlone(own[..n]);
      assert own == own[..n] + [own[n]];
    }
  }

  /** The unique numbers of path `i`, measured against all the other paths. */
  function UniqueOf(paths: seq<seq<nat>>, i: nat): (r: seq<nat>)
    requires i < |paths|
    ensures |r| <= |paths[i]|
    ensures forall x :: x in r ==> x in paths[i]
  {
    UniqueIds(paths[i], Others(paths, i))
  }

  /** A number unique to path `i` is in no other path. */
  lemma UniqueNotElsewhere(paths: seq<seq<nat>>, i: nat, j: nat, x: nat)
    requires i < |paths| && j < |paths| && i != j
    requires x in UniqueOf(paths, i)
    ensures x !in paths[j]
  {
    OthersContains(paths, i, j);
  }

  /** A number is unique to path `i` exactly when path `i` is the only path containing it. */
  lemma UniqueOfOnlyPath(paths: seq<seq<nat>>, i: nat, x: nat)
    requires i < |paths|
    ensures x in UniqueOf(paths, i) <==>
              x in paths[i] && forall j :: 0 <= j < |paths| && j != i ==> x !in paths[j]
  {
    var others := Others(paths, i);
    if x in UniqueOf(paths, i) {
      forall j | 0 <= j < |paths| && j != i ensures x !in paths[j] {
        OthersContains(paths, i, j);
      }
    }
  }

  /** Two different paths never share a unique number. */
  lemma UniqueOfDisjoint(paths: seq<seq<nat>>, i: nat, j: nat, x: nat)
    requires i < |paths| && j < |paths| && i != j
    ensures !(x in UniqueOf(paths, i) && x in UniqueOf(paths, j))
  {
    if x in UniqueOf(paths, i) {
      UniqueOfOnlyPath(paths, i, x);
      UniqueOfOnlyPath(paths, j, x);
    }
  }
}
