/** The read depth of a proposed path (`determine_depth`): every unique segment contributes its
    depth once per base beyond the k-mer, and the path depth is the median of those samples. */
module Depth {
  import opened Results
  import opened Text
  import opened Segments

  /** Why a path has no depth: a unique segment without a forward ('+') record in the graph,
      which `segments_dict[...]` refuses, or no samples at all, which the median lookup
      refuses. */
  datatype DepthError = MissingForward(number: nat) | NoSamples

  /** `range(length - kmer)` has this many elements: none when the k-mer is not shorter. */
  function Weight(length: nat, kmer: int): (w: nat)
    ensures w as int >= length - kmer
    ensures w == 0 || w == length - kmer
  {
    if length - kmer > 0 then length - kmer else 0
  }

  /** `w` copies of the sample `d`. */
  function Repeat(d: real, w: nat): (r: seq<real>)
    ensures |r| == w
    ensures forall i :: 0 <= i < w ==> r[i] == d
  {
    seq(w, _ => d)
  }

  /** The key under which the forward orientation of segment `n` is stored. */
  function ForwardKey(n: nat): string
  {
    SignedKey(n, true)
  }

  /** The samples one unique number contributes: the depth of its forward segment, once
      per base beyond the k-mer; a number without a forward segment is an error. */
  function SampleRun(n: nat, catalog: map<string, Segment>, kmer: int)
    : (r: Result<seq<real>, DepthError>)
    ensures r.Err? <==> ForwardKey(n) !in catalog
    ensures r.Err? ==> r.error == MissingForward(n)
    ensures r.Ok? ==> ForwardKey(n) in catalog &&
                      var s := catalog[ForwardKey(n)];
                      |r.value| == Weight(s.length, kmer) &&
                      forall k :: 0 <= k < |r.value| ==> r.value[k] == s.depth
  {
    var key := ForwardKey(n);
    if key in catalog then Ok(Repeat(catalog[key].depth, Weight(catalog[key].length, kmer)))
    else Err(MissingForward(n))
  }

  function SampleRuns(catalog: map<string, Segment>, kmer: int): nat -> Result<seq<real>, DepthError>
  {
    (n: nat) => SampleRun(n, catalog, kmer)
  }

  /** The list `depths` that `determine_depth` builds: the runs of the unique numbers one
      after the other. The first number without a forward segment is an error. */
  function Samples(unique: seq<nat>, catalog: map<string, Segment>, kmer: int)
    : (r: Result<seq<real>, DepthError>)
    ensures r.Ok? <==> forall i :: 0 <= i < |unique| ==> ForwardKey(unique[i]) in catalog
    ensures r.Err? ==> exists i :: 0 <= i < |unique| && r.error == MissingForward(unique[i]) &&
                                   ForwardKey(unique[i]) !in catalog &&
                                   forall j :: 0 <= j < i ==> ForwardKey(unique[j]) in catalog
  {
    match MapAll(unique, SampleRuns(catalog, kmer))
    case Err(e) => Err(e)
    case Ok(runs) => Ok(Flatten(runs))
  }

  /** The samples of a concatenation are the samples of its parts. */
  lemma SamplesAppend(a: seq<nat>, b: seq<nat>, catalog: map<string, Segment>, kmer: int)
    requires Samples(a, catalog, kmer).Ok? && Samples(b, catalog, kmer).Ok?
    ensures Samples(a + b, catalog, kmer) ==
            Ok(Samples(a, catalog, kmer).value + Samples(b, catalog, kmer).value)
  {
    var f := SampleRuns(catalog, kmer);
    MapAllAppend(a, b, f);
    FlattenAppend(MapAll(a, f).value, MapAll(b, f).value);
  }

  /** Taking one more unique number: its run is appended to the samples, or it is the first
      number without a forward segment. */
  lemma SamplesSnoc(unique: seq<nat>, i: nat, catalog: map<string, Segment>, kmer: int)
    requires i < |unique| && Samples(unique[..i], catalog, kmer).Ok?
    ensures ForwardKey(unique[i]) in catalog ==>
              var s := catalog[ForwardKey(unique[i])];
              Samples(unique[..i + 1], catalog, kmer) ==
                Ok(Samples(unique[..i], catalog, kmer).value + Repeat(s.depth, Weight(s.length, kmer)))
    ensures ForwardKey(unique[i]) !in catalog ==>
              Samples(unique, catalog, kmer) == Err(MissingForward(unique[i]))
  {
    var f := SampleRuns(catalog, kmer);
    assert unique[..i + 1] == unique[..i] + [unique[i]];
    MapAllSnoc(unique[..i], unique[i], f);
    if ForwardKey(unique[i]) !in catalog {
      MapAllPrefixFails(unique, i + 1, f);
    } else {
      var runs := MapAll(unique[..i], f).value;
      var run := f(unique[i]).value;
      assert Flatten(runs + [run]) == Flatten(runs) + run by {
        assert (runs + [run])[..|runs|] == runs;
      }
    }
  }

  /** Every sample is the depth of the forward segment of one of the unique numbers. */
  lemma SamplesFrom(unique: seq<nat>, catalog: map<string, Segment>, kmer: int, k: nat)
    requires Samples(unique, catalog, kmer).Ok? && k < |Samples(unique, catalog, kmer).value|
    ensures exists i :: 0 <= i < |unique| && ForwardKey(unique[i]) in catalog &&
                        Samples(unique, catalog, kmer).value[k] == catalog[ForwardKey(unique[i])].depth
  {
    var runs := MapAll(unique, SampleRuns(catalog, kmer)).value;
    FlattenFrom(runs, k);
    var i :| 0 <= i < |runs| && Flatten(runs)[k] in runs[i];
    assert SampleRun(unique[i], catalog, kmer) == Ok(runs[i]);
  }

  predicate Sorted(s: seq<real>)
  {
    forall i, j :: 0 <= i < j < |s| ==> s[i] <= s[j]
  }

  /** Puts `x` into the sorted list `s`, before the first larger element. */
  function Insert(x: real, s: seq<real>): (r: seq<real>)
    requires Sorted(s)
    ensures |r| == |s| + 1
    ensures r[0] == x || (s != [] && r[0] == s[0])
    ensures Sorted(r)
    ensures multiset(r) == multiset(s) + multiset{x}
  {
    if s == [] then [x]
    else if x <= s[0] then
      ConsSorted(x, s);
      [x] + s
    else
      SortedTail(s);
      var rest := Insert(x, s[1..]);
      ConsSorted(s[0], rest);
      assert multiset(s) == multiset{s[0]} + multiset(s[1..]) by { assert s == [s[0]] + s[1..]; }
      [s[0]] + rest
  }

  /** The tail of a sorted list is sorted. */
  lemma SortedTail(s: seq<real>)
    requires Sorted(s) && s != []
    ensures Sorted(s[1..])
  {
  }

  /** A sample put in front of a sorted list whose first sample is not smaller. */
  lemma ConsSorted(x: real, s: seq<real>)
    requires Sorted(s)
    requires s != [] ==> x <= s[0]
    ensures Sorted([x] + s)
  {
  }

  /** `sorted(depths)`. */
  function Sort(s: seq<real>): (r: seq<real>)
    ensures |r| == |s|
    ensures Sorted(r)
    ensures multiset(r) == multiset(s)
  {
    if s == [] then []
    else
      assert s == [s[0]] + s[1..];
      Insert(s[0], Sort(s[1..]))
  }

  /** A sorted list is determined by its elements: two sorted lists with the same elements
      are equal. */
  lemma {:induction false} SortedUnique(a: seq<real>, b: seq<real>)
    requires Sorted(a) && Sorted(b)
    requires multiset(a) == multiset(b)
    ensures a == b
  {
    if a != [] && b != [] {
      assert a[0] in multiset(b) && b[0] in multiset(a);
      SortedLeast(b, a[0]);
      SortedLeast(a, b[0]);
      assert multiset(a) == multiset{a[0]} + multiset(a[1..]) by { assert a == [a[0]] + a[1..]; }
      assert multiset(b) == multiset{b[0]} + multiset(b[1..]) by { assert b == [b[0]] + b[1..]; }
      assert a[0] == b[0];
      assert multiset(a[1..]) == multiset(a) - multiset{a[0]};
      assert multiset(b[1..]) == multiset(b) - multiset{b[0]};
      SortedUnique(a[1..], b[1..]);
      assert a == [a[0]] + a[1..] && b == [b[0]] + b[1..];
    }
  }

  /** The first element of a sorted list is its least. */
  lemma SortedLeast(s: seq<real>, x: real)
    requires Sorted(s) && x in multiset(s)
    ensures s[0] <= x
  {
  }

  /** The median as `determine_depth` takes it from a sorted list: the middle element for an
      odd count, the mean of the two middle elements for an even one. */
  function Median(s: seq<real>): (m: real)
    requires |s| >= 1
    ensures var i := (|s| - 1) / 2;
            s[i] <= s[|s| / 2] ==> s[i] <= m <= s[|s| / 2]
  {
    var i := (|s| - 1) / 2;
    if |s| % 2 == 1 then s[i] else (s[i] + s[i + 1]) / 2.0
  }

  /** The median of a sorted list is at least the lower half and at most the upper half. */
  lemma MedianSplits(s: seq<real>)
    requires |s| >= 1 && Sorted(s)
    ensures forall k :: 0 <= k < (|s| + 1) / 2 ==> s[k] <= Median(s)
    ensures forall k :: |s| / 2 <= k < |s| ==> Median(s) <= s[k]
  {
  }

  /** The median of the sorted samples; no samples at all is an error. */
  function SampleMedian(samples: seq<real>): (r: Result<real, DepthError>)
    ensures r.Err? <==> samples == []
    ensures r.Err? ==> r.error == NoSamples
  {
    if |samples| == 0 then Err(NoSamples) else Ok(Median(Sort(samples)))
  }

  /** `determine_depth`: the median of the sorted samples of the unique segments. */
  function DepthOf(unique: seq<nat>, catalog: map<string, Segment>, kmer: int)
    : (r: Result<real, DepthError>)
    ensures r == Err(NoSamples) <==> Samples(unique, catalog, kmer) == Ok([])
  {
    match Samples(unique, catalog, kmer)
    case Err(e) => Err(e)
    case Ok(samples) => SampleMedian(samples)
  }

  /** A path depth lies between the smallest and the largest of its samples. */
  lemma DepthWithinSamples(unique: seq<nat>, catalog: map<string, Segment>, kmer: int)
    requires DepthOf(unique, catalog, kmer).Ok?
    ensures var samples := Samples(unique, catalog, kmer).value;
            exists i, j :: 0 <= i < |samples| && 0 <= j < |samples| &&
                           samples[i] <= DepthOf(unique, catalog, kmer).value <= samples[j]
  {
    var samples := Samples(unique, catalog, kmer).value;
    var sorted := Sort(samples);
    MedianSplits(sorted);
    assert |sorted| == |multiset(sorted)| == |samples|;
    assert sorted[0] in multiset(samples);
    assert sorted[|sorted| - 1] in multiset(samples);
    var i :| 0 <= i < |samples| && samples[i] == sorted[0];
    var j :| 0 <= j < |samples| && samples[j] == sorted[|sorted| - 1];
  }

  /** Two lists of samples with the same elements give the same depth. */
  lemma MedianOfSameSamples(s: seq<real>, t: seq<real>)
    requires multiset(s) == multiset(t) && |s| >= 1
    ensures |t| >= 1 && Median(Sort(s)) == Median(Sort(t))
  {
    assert |t| == |multiset(t)| == |multiset(s)| == |s|;
    SortedUnique(Sort(s), Sort(t));
  }

  /** When every number of `a + b` has a forward segment, so does every number of `a` and
      of `b`. */
  lemma SamplesOfParts(a: seq<nat>, b: seq<nat>, catalog: map<string, Segment>, kmer: int)
    requires Samples(a + b, catalog, kmer).Ok?
    ensures Samples(a, catalog, kmer).Ok? && Samples(b, catalog, kmer).Ok?
  {
    assert forall i :: 0 <= i < |a| ==> a[i] == (a + b)[i];
    assert forall i :: 0 <= i < |b| ==> b[i] == (a + b)[|a| + i];
  }

  /** The depth of a path does not depend on the order of its unique segments: swapping two
      runs of them leaves it unchanged, once every one has a forward segment. */
  lemma DepthSwap(a: seq<nat>, b: seq<nat>, catalog: map<string, Segment>, kmer: int)
    requires Samples(a + b, catalog, kmer).Ok?
    ensures DepthOf(a + b, catalog, kmer) == DepthOf(b + a, catalog, kmer)
  {
    DepthPermutation(a + b, b + a, catalog, kmer);
  }

  /** Whether every unique number has a forward segment does not depend on their order. */
  lemma SamplesOkPermutation(u: seq<nat>, v: seq<nat>, catalog: map<string, Segment>, kmer: int)
    requires multiset(u) == multiset(v)
    ensures Samples(u, catalog, kmer).Ok? <==> Samples(v, catalog, kmer).Ok?
  {
    forall i | 0 <= i < |u| ensures u[i] in v {
      assert u[i] in multiset(v);
    }
    forall i | 0 <= i < |v| ensures v[i] in u {
      assert v[i] in multiset(u);
    }
  }

  /** The samples of a non-empty list are the run of its first number together with the
      samples of the rest. */
  lemma SamplesHead(u: seq<nat>, catalog: map<string, Segment>, kmer: int)
    requires u != [] && Samples(u, catalog, kmer).Ok?
    ensures Samples(u[1..], catalog, kmer).Ok? && Samples([u[0]], catalog, kmer).Ok?
    ensures multiset(Samples(u, catalog, kmer).value) ==
            multiset(Samples([u[0]], catalog, kmer).value) + multiset(Samples(u[1..], catalog, kmer).value)
  {
    assert u == [u[0]] + u[1..];
    SamplesOfParts([u[0]], u[1..], catalog, kmer);
    SamplesAppend([u[0]], u[1..], catalog, kmer);
  }

  /** Taking the run of `v[k]` out of the samples of `v` leaves the samples of the other
      numbers. */
  lemma SamplesExtract(v: seq<nat>, k: nat, catalog: map<string, Segment>, kmer: int)
    requires k < |v| && Samples(v, catalog, kmer).Ok?
    ensures Samples(v[..k] + v[k + 1..], catalog, kmer).Ok? && Samples([v[k]], catalog, kmer).Ok?
    ensures multiset(Samples(v, catalog, kmer).value) ==
            multiset(Samples([v[k]], catalog, kmer).value) + multiset(Samples(v[..k] + v[k + 1..], catalog, kmer).value)
  {
    var left, right := v[..k], v[k + 1..];
    PickOut(v, k);
    SamplesOfParts(left + [v[k]], right, catalog, kmer);
    SamplesOfParts(left, [v[k]], catalog, kmer);
    SamplesAppend(left, [v[k]], catalog, kmer);
    SamplesAppend(left + [v[k]], right, catalog, kmer);
    SamplesAppend(left, right, catalog, kmer);
  }

  /** Unique numbers in another order give the same samples in another order: each number's
      run moves as a whole. */
  lemma {:induction false} SamplesPermutation(u: seq<nat>, v: seq<nat>, catalog: map<string, Segment>, kmer: int)
    requires multiset(u) == multiset(v)
    requires Samples(u, catalog, kmer).Ok?
    ensures Samples(v, catalog, kmer).Ok?
    ensures multiset(Samples(u, catalog, kmer).value) == multiset(Samples(v, catalog, kmer).value)
    decreases |u|
  {
    SamplesOkPermutation(u, v, catalog, kmer);
    if u == [] {
      assert |v| == |multiset(v)| == 0;
    } else {
      assert u[0] in multiset(v);
      var k :| 0 <= k < |v| && v[k] == u[0];
      var rest := v[..k] + v[k + 1..];
      PickOut(u, 0);
      PickOut(v, k);
      SamplesHead(u, catalog, kmer);
      SamplesExtract(v, k, catalog, kmer);
      assert [u[0]] == [v[k]];
      SamplesPermutation(u[1..], rest, catalog, kmer);
    }
  }

  /** The depth of a path does not depend on the order of its unique segments: any reordering
      fails exactly when the original does, and, once every number has a forward segment,
      gives the same depth. */
  lemma DepthPermutation(u: seq<nat>, v: seq<nat>, catalog: map<string, Segment>, kmer: int)
    requires multiset(u) == multiset(v)
    ensures DepthOf(u, catalog, kmer).Err? <==> DepthOf(v, catalog, kmer).Err?
    ensures Samples(u, catalog, kmer).Ok? ==> DepthOf(u, catalog, kmer) == DepthOf(v, catalog, kmer)
  {
    SamplesOkPermutation(u, v, catalog, kmer);
    if Samples(u, catalog, kmer).Ok? {
      SamplesPermutation(u, v, catalog, kmer);
      var su, sv := Samples(u, catalog, kmer).value, Samples(v, catalog, kmer).value;
      assert |su| == |multiset(su)| == |multiset(sv)| == |sv|;
      if |su| >= 1 {
        MedianOfSameSamples(su, sv);
      }
    }
  }

  /** Sorting samples that all equal `d` gives samples that all equal `d`. */
  lemma SortUniform(samples: seq<real>, d: real)
    requires forall k :: 0 <= k < |samples| ==> samples[k] == d
    ensures forall k :: 0 <= k < |Sort(samples)| ==> Sort(samples)[k] == d
  {
  }

  /** The median of a list whose elements all equal `d` is `d`. */
  lemma MedianConstant(s: seq<real>, d: real)
    requires |s| >= 1
    requires forall k :: 0 <= k < |s| ==> s[k] == d
    ensures Median(s) == d
  {
  }

  /** A path whose unique segments all have the same depth `d` (and that has samples at all)
      has depth `d`. */
  lemma DepthUniform(unique: seq<nat>, catalog: map<string, Segment>, kmer: int, d: real)
    requires forall i :: 0 <= i < |unique| ==>
               ForwardKey(unique[i]) in catalog && catalog[ForwardKey(unique[i])].depth == d
    requires Samples(unique, catalog, kmer) != Ok([])
    ensures DepthOf(unique, catalog, kmer) == Ok(d)
  {
    var samples := Samples(unique, catalog, kmer).value;
    forall k | 0 <= k < |samples| ensures samples[k] == d {
      SamplesFrom(unique, catalog, kmer, k);
    }
    SortUniform(samples, d);
    MedianConstant(Sort(samples), d);
  }
}
