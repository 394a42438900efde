/** The table `output_expected_vs_actual` prints: for each forward graph segment at or above
    the depth cutoff, in segment-number order, how often each path visits it, the depth those
    visits lead one to expect, the depth SPAdes measured, and their ratio; with a ratio band
    given, only the segments whose ratio falls outside it. */
module Report {
  import opened Results
  import opened Segments
  import opened Uniqueness
  import Paths

  /** One printed line of the table. */
  datatype Row = Row(number: nat, occurrences: seq<nat>, expected: real, actual: real, ratio: real)

  /** Why the table cannot be finished: a segment at or above the cutoff has depth zero (the
      division by the actual depth raises), or only one end of the ratio band was given and
      the ratio is compared with the missing one (Python 3 refuses to order a float against
      `None`). */
  datatype ReportError = ZeroActualDepth(number: nat) | Incomparable

  /** `show`: with no band every line is shown; with both ends, the lines whose ratio lies
      strictly outside `[minimum, maximum]`. The `or` is evaluated left to right, so a ratio
      below a lone minimum is shown before the missing maximum is reached. */
  function Shown(ratio: real, minimum: Option<real>, maximum: Option<real>): (r: Result<bool, ReportError>)
    ensures minimum.None? && maximum.None? ==> r == Ok(true)
    ensures minimum.Some? && maximum.Some? ==> r == Ok(!(minimum.value <= ratio <= maximum.value))
    ensures minimum.Some? && ratio < minimum.value ==> r == Ok(true)
    ensures r.Err? <==> (minimum.None? && maximum.Some?) ||
                        (minimum.Some? && maximum.None? && minimum.value <= ratio)
  {
    if minimum.None? && maximum.None? then Ok(true)
    else if minimum.None? then Err(Incomparable)
    else if ratio < minimum.value then Ok(true)
    else if maximum.None? then Err(Incomparable)
    else Ok(ratio > maximum.value)
  }

  /** `x.positive`. */
  predicate IsPositive(segment: Segment)
  {
    segment.positive
  }

  predicate SortedByNumber(s: seq<Segment>)
  {
    forall i, j :: 0 <= i < j < |s| ==> s[i].number <= s[j].number
  }

  /** Puts `x` into the list `s` sorted by number, before the first element whose number is
      not smaller. */
  function InsertByNumber(x: Segment, s: seq<Segment>): (r: seq<Segment>)
    requires SortedByNumber(s)
    ensures |r| == |s| + 1
    ensures r[0] == x || (s != [] && r[0] == s[0])
    ensures SortedByNumber(r)
    ensures multiset(r) == multiset(s) + multiset{x}
  {
    if s == [] then [x]
    else if x.number <= s[0].number then
      ConsSortedByNumber(x, s);
      [x] + s
    else
      assert s == [s[0]] + s[1..];
      var rest := InsertByNumber(x, s[1..]);
      ConsSortedByNumber(s[0], rest);
      [s[0]] + rest
  }

  /** A segment put in front of a sorted list whose first number is not smaller. */
  lemma ConsSortedByNumber(x: Segment, s: seq<Segment>)
    requires SortedByNumber(s)
    requires s != [] ==> x.number <= s[0].number
    ensures SortedByNumber([x] + s)
  {
  }

  /** `sorted(segments, key=lambda x: x.number)`. */
  function SortByNumber(s: seq<Segment>): (r: seq<Segment>)
    ensures SortedByNumber(r)
    ensures multiset(r) == multiset(s)
  {
    if s == [] then []
    else
      assert s == [s[0]] + s[1..];
      InsertByNumber(s[0], SortByNumber(s[1..]))
  }

  /** How often each path visits segment `n`: `path.numbers_without_sign.count(n)`. */
  function Occurrences(numbers: seq<seq<nat>>, n: nat): (r: seq<nat>)
    ensures |r| == |numbers|
    ensures forall i :: 0 <= i < |numbers| ==> r[i] == Count(numbers[i], n)
  {
    if numbers == [] then []
    else
      var k := |numbers| - 1;
      assert forall i :: 0 <= i < k ==> numbers[..k][i] == numbers[i];
      Occurrences(numbers[..k], n) + [Count(numbers[k], n)]
  }

  /** What one path adds to the expected depth of a segment: its depth once per visit. */
  function Contribution(visits: nat, depth: real): real
  {
    visits as real * depth
  }

  /** The expected depth of segment `n`: each path's contribution, summed over the paths in
      order. */
  function ExpectedDepth(numbers: seq<seq<nat>>, n: nat, depths: seq<real>): (e: real)
    requires |numbers| == |depths|
    ensures (forall k :: 0 <= k < |depths| ==> depths[k] >= 0.0) ==> e >= 0.0
  {
    if numbers == [] then 0.0
    else
      var k := |numbers| - 1;
      ExpectedDepth(numbers[..k], n, depths[..k]) + Contribution(Count(numbers[k], n), depths[k])
  }

  /** The line for one forward segment: none below the cutoff, otherwise its counts, depths
      and ratio, shown or not according to the band. */
  function RowOf(segment: Segment, numbers: seq<seq<nat>>, depths: seq<real>, cutoff: real,
                 minimum: Option<real>, maximum: Option<real>): (r: Result<Option<Row>, ReportError>)
    requires |numbers| == |depths|
    ensures segment.depth < cutoff ==> r == Ok(None)
    ensures r.Ok? && r.value.Some? ==>
              var row := r.value.value;
              row.number == segment.number && row.actual == segment.depth && cutoff <= row.actual &&
              row.occurrences == Occurrences(numbers, segment.number) &&
              row.expected == ExpectedDepth(numbers, row.number, depths) &&
              row.actual != 0.0 && row.ratio == row.expected / row.actual &&
              Shown(row.ratio, minimum, maximum) == Ok(true)
    ensures r.Err? ==>
              (r.error == ZeroActualDepth(segment.number) && cutoff <= 0.0 && segment.depth == 0.0) ||
              (r.error == Incomparable && minimum.Some? != maximum.Some?)
  {
    if segment.depth < cutoff then Ok(None)
    else
      var occurrences := Occurrences(numbers, segment.number);
      var expected := ExpectedDepth(numbers, segment.number, depths);
      if segment.depth == 0.0 then Err(ZeroActualDepth(segment.number))
      else
        var ratio := expected / segment.depth;
        match Shown(ratio, minimum, maximum)
        case Err(e) => Err(e)
        case Ok(show) =>
          Ok(if show then Some(Row(segment.number, occurrences, expected, segment.depth, ratio)) else None)
  }

  function RowMaker(numbers: seq<seq<nat>>, depths: seq<real>, cutoff: real,
                    minimum: Option<real>, maximum: Option<real>): Segment -> Result<Option<Row>, ReportError>
    requires |numbers| == |depths|
  {
    segment => RowOf(segment, numbers, depths, cutoff, minimum, maximum)
  }

  /** The lines for the given segments, in their order: the first segment that raises ends
      the table. */
  function Lines(segments: seq<Segment>, numbers: seq<seq<nat>>, depths: seq<real>, cutoff: real,
                 minimum: Option<real>, maximum: Option<real>): (r: Result<seq<Row>, ReportError>)
    requires |numbers| == |depths|
    ensures r.Ok? ==> |r.value| <= |segments|
    ensures r.Err? ==> exists segment :: segment in segments &&
                                         RowOf(segment, numbers, depths, cutoff, minimum, maximum) == Err(r.error)
  {
    match MapAll(segments, RowMaker(numbers, depths, cutoff, minimum, maximum))
    case Err(e) => Err(e)
    case Ok(lines) => Ok(Somes(lines))
  }

  /** `output_expected_vs_actual` on the graph segments, the numbers of each path and the depth
      of each path: the lines it prints for the forward segments in number order, or the error
      it stops at. */
  function Report(graphSegments: seq<Segment>, numbers: seq<seq<nat>>, depths: seq<real>, cutoff: real,
                  minimum: Option<real>, maximum: Option<real>): (r: Result<seq<Row>, ReportError>)
    requires |numbers| == |depths|
    ensures r.Ok? ==> |r.value| <= |graphSegments|
  {
    var positive := Filter(graphSegments, IsPositive);
    var sorted := SortByNumber(positive);
    assert |sorted| == |multiset(sorted)| == |multiset(positive)| == |positive|;
    Lines(sorted, numbers, depths, cutoff, minimum, maximum)
  }

  predicate AscendingRows(rows: seq<Row>)
  {
    forall i, j :: 0 <= i < j < |rows| ==> rows[i].number <= rows[j].number
  }

  /** Keeping the present lines of a list whose present lines are in segment-number order
      keeps them in that order. */
  lemma {:induction false} SomesAscending(lines: seq<Option<Row>>)
    requires forall i, j :: 0 <= i < j < |lines| && lines[i].Some? && lines[j].Some? ==>
               lines[i].value.number <= lines[j].value.number
    ensures AscendingRows(Somes(lines))
  {
    if lines != [] {
      var n := |lines| - 1;
      assert forall i :: 0 <= i < n ==> lines[..n][i] == lines[i];
      SomesAscending(lines[..n]);
      assert lines == lines[..n] + [lines[n]];
      SomesSnoc(lines[..n], lines[n]);
      if lines[n].Some? {
        var rows := Somes(lines[..n]);
        forall k | 0 <= k < |rows| ensures rows[k].number <= lines[n].value.number {
          assert rows[k] in rows;
          var i :| 0 <= i < n && lines[..n][i] == Some(rows[k]);
        }
        AscendingSnoc(rows, lines[n].value);
      }
    }
  }

  /** A row numbered at least as high as every row before it keeps the rows ascending. */
  lemma AscendingSnoc(rows: seq<Row>, row: Row)
    requires AscendingRows(rows)
    requires forall k :: 0 <= k < |rows| ==> rows[k].number <= row.number
    ensures AscendingRows(rows + [row])
  {
  }

  /** The table lists its segments in ascending number order. */
  lemma ReportAscending(graphSegments: seq<Segment>, numbers: seq<seq<nat>>, depths: seq<real>, cutoff: real,
                        minimum: Option<real>, maximum: Option<real>)
    requires |numbers| == |depths|
    requires Report(graphSegments, numbers, depths, cutoff, minimum, maximum).Ok?
    ensures AscendingRows(Report(graphSegments, numbers, depths, cutoff, minimum, maximum).value)
  {
    var sorted := SortByNumber(Filter(graphSegments, IsPositive));
    var make := RowMaker(numbers, depths, cutoff, minimum, maximum);
    var lines := MapAll(sorted, make).value;
    forall i, j | 0 <= i < j < |lines| && lines[i].Some? && lines[j].Some?
      ensures lines[i].value.number <= lines[j].value.number
    {
      assert make(sorted[i]) == Ok(lines[i]) && make(sorted[j]) == Ok(lines[j]);
    }
    SomesAscending(lines);
  }

  /** The segments the table goes through are the forward graph segments. */
  lemma ListedSegment(graphSegments: seq<Segment>, k: nat)
    requires k < |SortByNumber(Filter(graphSegments, IsPositive))|
    ensures var segment := SortByNumber(Filter(graphSegments, IsPositive))[k];
            segment in graphSegments && segment.positive
  {
    var positive := Filter(graphSegments, IsPositive);
    var segment := SortByNumber(positive)[k];
    assert segment in multiset(positive);
    var j :| 0 <= j < |positive| && positive[j] == segment;
  }

  /** Every line of the table is that of a forward graph segment at or above the cutoff: the
      segment's number and measured depth, the visits of each path, the expected depth they
      add up to, their ratio, and a ratio the band lets through. */
  lemma ReportSound(graphSegments: seq<Segment>, numbers: seq<seq<nat>>, depths: seq<real>, cutoff: real,
                    minimum: Option<real>, maximum: Option<real>, row: Row)
    requires |numbers| == |depths|
    requires Report(graphSegments, numbers, depths, cutoff, minimum, maximum).Ok?
    requires row in Report(graphSegments, numbers, depths, cutoff, minimum, maximum).value
    ensures exists segment :: segment in graphSegments && segment.positive &&
              segment.number == row.number && segment.depth == row.actual && cutoff <= row.actual &&
              row.occurrences == Occurrences(numbers, row.number) &&
              row.expected == ExpectedDepth(numbers, row.number, depths) &&
              row.actual != 0.0 && row.ratio == row.expected / row.actual &&
              Shown(row.ratio, minimum, maximum) == Ok(true)
  {
    var positive := Filter(graphSegments, IsPositive);
    var sorted := SortByNumber(positive);
    var make := RowMaker(numbers, depths, cutoff, minimum, maximum);
    var lines := MapAll(sorted, make).value;
    var k :| 0 <= k < |lines| && lines[k] == Some(row);
    assert make(sorted[k]) == Ok(Some(row));
    ListedSegment(graphSegments, k);
  }

  /** Every row of the table comes from a positive graph segment at or above the cutoff. */
  lemma RowsFromSegments(graphSegments: seq<Segment>, numbers: seq<seq<nat>>, depths: seq<real>, cutoff: real,
                         minimum: Option<real>, maximum: Option<real>)
    requires |numbers| == |depths|
    requires Report(graphSegments, numbers, depths, cutoff, minimum, maximum).Ok?
    ensures forall row :: row in Report(graphSegments, numbers, depths, cutoff, minimum, maximum).value ==>
              exists segment :: segment in graphSegments && segment.positive && segment.number == row.number &&
                                segment.depth == row.actual && cutoff <= row.actual
  {
    forall row | row in Report(graphSegments, numbers, depths, cutoff, minimum, maximum).value
      ensures exists segment :: segment in graphSegments && segment.positive && segment.number == row.number &&
                                segment.depth == row.actual && cutoff <= row.actual
    {
      ReportSound(graphSegments, numbers, depths, cutoff, minimum, maximum, row);
    }
  }

  /** Every forward graph segment at or above the cutoff whose ratio the band lets through has
      a line in the table. */
  lemma ReportComplete(graphSegments: seq<Segment>, numbers: seq<seq<nat>>, depths: seq<real>, cutoff: real,
                       minimum: Option<real>, maximum: Option<real>, segment: Segment)
    requires |numbers| == |depths|
    requires Report(graphSegments, numbers, depths, cutoff, minimum, maximum).Ok?
    requires segment in graphSegments && segment.positive && cutoff <= segment.depth
    requires segment.depth != 0.0
    requires Shown(ExpectedDepth(numbers, segment.number, depths) / segment.depth,
                   minimum, maximum) == Ok(true)
    ensures exists row :: row in Report(graphSegments, numbers, depths, cutoff, minimum, maximum).value &&
              row.number == segment.number && row.actual == segment.depth
  {
    var positive := Filter(graphSegments, IsPositive);
    var sorted := SortByNumber(positive);
    var make := RowMaker(numbers, depths, cutoff, minimum, maximum);
    var lines := MapAll(sorted, make).value;
    var i :| 0 <= i < |graphSegments| && graphSegments[i] == segment;
    assert segment in multiset(sorted);
    var k :| 0 <= k < |sorted| && sorted[k] == segment;
    assert make(sorted[k]) == Ok(lines[k]);
    assert lines[k].Some?;
  }

  /** With a positive cutoff and either both ends of the band or neither, the table is always
      finished. */
  lemma ReportSucceeds(graphSegments: seq<Segment>, numbers: seq<seq<nat>>, depths: seq<real>, cutoff: real,
                       minimum: Option<real>, maximum: Option<real>)
    requires |numbers| == |depths|
    requires cutoff > 0.0 && minimum.Some? == maximum.Some?
    ensures Report(graphSegments, numbers, depths, cutoff, minimum, maximum).Ok?
  {
  }

  /** The table stops only on a forward segment of depth zero at or above the cutoff (which
      takes a cutoff of zero or less), or on a band with one end missing. */
  lemma ReportFails(graphSegments: seq<Segment>, numbers: seq<seq<nat>>, depths: seq<real>, cutoff: real,
                    minimum: Option<real>, maximum: Option<real>)
    requires |numbers| == |depths|
    requires Report(graphSegments, numbers, depths, cutoff, minimum, maximum).Err?
    ensures var e := Report(graphSegments, numbers, depths, cutoff, minimum, maximum).error;
            (e.ZeroActualDepth? && cutoff <= 0.0 &&
             exists segment :: segment in graphSegments && segment.positive &&
                               segment.number == e.number && segment.depth == 0.0) ||
            (e == Incomparable && minimum.Some? != maximum.Some?)
  {
    var positive := Filter(graphSegments, IsPositive);
    var sorted := SortByNumber(positive);
    var make := RowMaker(numbers, depths, cutoff, minimum, maximum);
    var e := MapAll(sorted, make).error;
    var k :| 0 <= k < |sorted| && make(sorted[k]) == Err(e);
    ListedSegment(graphSegments, k);
  }

  /** When path `i` is the only one visiting segment `n`, the expected depth is path `i`'s
      contribution alone. */
  lemma {:induction false} ExpectedOfOnlyVisitor(numbers: seq<seq<nat>>, n: nat, depths: seq<real>, i: nat)
    requires |numbers| == |depths| && i < |numbers|
    requires forall j :: 0 <= j < |numbers| && j != i ==> n !in numbers[j]
    ensures ExpectedDepth(numbers, n, depths) == Contribution(Count(numbers[i], n), depths[i])
  {
    var k := |numbers| - 1;
    assert forall j :: 0 <= j < k ==> numbers[..k][j] == numbers[j];
    if i == k {
      ExpectedOfNoVisitor(numbers[..k], n, depths[..k]);
    } else {
      ExpectedOfOnlyVisitor(numbers[..k], n, depths[..k], i);
      assert Count(numbers[k], n) == 0;
    }
  }

  /** When no path visits segment `n`, its expected depth is zero. */
  lemma {:induction false} ExpectedOfNoVisitor(numbers: seq<seq<nat>>, n: nat, depths: seq<real>)
    requires |numbers| == |depths|
    requires forall j :: 0 <= j < |numbers| ==> n !in numbers[j]
    ensures ExpectedDepth(numbers, n, depths) == 0.0
  {
    if numbers != [] {
      var k := |numbers| - 1;
      assert forall j :: 0 <= j < k ==> numbers[..k][j] == numbers[j];
      ExpectedOfNoVisitor(numbers[..k], n, depths[..k]);
      assert Count(numbers[k], n) == 0;
    }
  }

  /** A segment unique to path `i` is expected at path `i`'s depth times the number of times
      path `i` visits it. */
  lemma ExpectedOfUniqueSegment(numbers: seq<seq<nat>>, depths: seq<real>, i: nat, n: nat)
    requires |numbers| == |depths| && i < |numbers|
    requires n in UniqueOf(numbers, i)
    ensures ExpectedDepth(numbers, n, depths) == Contribution(Count(numbers[i], n), depths[i])
  {
    forall j | 0 <= j < |numbers| && j != i ensures n !in numbers[j] {
      UniqueNotElsewhere(numbers, i, j, n);
    }
    ExpectedOfOnlyVisitor(numbers, n, depths, i);
  }

  /** One more path: its visits are appended to the counts. */
  lemma OccurrencesSnoc(numbers: seq<seq<nat>>, j: nat, n: nat)
    requires j < |numbers|
    ensures Occurrences(numbers[..j + 1], n) == Occurrences(numbers[..j], n) + [Count(numbers[j], n)]
  {
  }

  /** One more path: its contribution is added to the expected depth. */
  lemma ExpectedSnoc(numbers: seq<seq<nat>>, n: nat, depths: seq<real>, j: nat)
    requires |numbers| == |depths| && j < |numbers|
    ensures ExpectedDepth(numbers[..j + 1], n, depths[..j + 1]) ==
            ExpectedDepth(numbers[..j], n, depths[..j]) + Contribution(Count(numbers[j], n), depths[j])
  {
    assert numbers[..j + 1][..j] == numbers[..j];
    assert depths[..j + 1][..j] == depths[..j];
  }

  /** The loop over the paths for one segment: how often each path visits it, and the depth
      those visits add up to. */
  method Visits(paths: seq<Paths.ProposedPath>, number: nat) returns (occurrences: seq<nat>, expected: real)
    ensures occurrences == Occurrences(Paths.NumbersOf(paths), number)
    ensures expected == ExpectedDepth(Paths.NumbersOf(paths), number, Paths.DepthsOf(paths))
  {
    ghost var numbers, depths := Paths.NumbersOf(paths), Paths.DepthsOf(paths);
    expected := 0.0;
    occurrences := [];
    for j := 0 to |paths|
      invariant occurrences == Occurrences(numbers[..j], number)
      invariant expected == ExpectedDepth(numbers[..j], number, depths[..j])
    {
      var path := paths[j];
      var count := Count(path.numbersWithoutSign, number);
      OccurrencesSnoc(numbers, j, number);
      ExpectedSnoc(numbers, number, depths, j);
      assert count == Count(numbers[j], number) && path.depth == depths[j];
      occurrences := occurrences + [count];
      expected := expected + Contribution(count, path.depth);
    }
    assert numbers[..|paths|] == numbers && depths[..|paths|] == depths;
  }

  /** The body of the loop over the forward segments: the segment is skipped below the
      cutoff; otherwise its visits are counted path by path and its expected depth summed,
      the ratio taken, and the line shown or not. */
  method SegmentLine(segment: Segment, paths: seq<Paths.ProposedPath>, cutoff: real,
                     minimum: Option<real>, maximum: Option<real>)
    returns (r: Result<Option<Row>, ReportError>)
    ensures r == RowOf(segment, Paths.NumbersOf(paths), Paths.DepthsOf(paths), cutoff, minimum, maximum)
  {
    var actual := segment.depth;
    if actual < cutoff {
      return Ok(None);
    }
    var number := segment.number;
    var occurrences, expected := Visits(paths, number);
    if actual == 0.0 {
      return Err(ZeroActualDepth(number));
    }
    var ratio := expected / actual;
    var show: bool;
    if minimum.Some? || maximum.Some? {
      if minimum.None? {
        return Err(Incomparable);
      }
      if ratio < minimum.value {
        show := true;
      } else if maximum.None? {
        return Err(Incomparable);
      } else {
        show := ratio > maximum.value;
      }
    } else {
      show := true;
    }
    if show {
      r := Ok(Some(Row(number, occurrences, expected, actual, ratio)));
    } else {
      r := Ok(None);
    }
  }

  /** `output_expected_vs_actual`: the forward segments sorted by number, then the table. */
  method OutputExpectedVsActual(graphSegments: seq<Segment>, paths: seq<Paths.ProposedPath>, cutoff: real,
                                minimum: Option<real>, maximum: Option<real>)
    returns (r: Result<seq<Row>, ReportError>)
    ensures r == Report(graphSegments, Paths.NumbersOf(paths), Paths.DepthsOf(paths), cutoff, minimum, maximum)
  {
    var positive := Filter(graphSegments, IsPositive);
    var sorted := SortByNumber(positive);
    r := TableLines(sorted, paths, cutoff, minimum, maximum);
  }

  /** The loop over the sorted forward segments: the line of each that is shown, in order;
      the first segment that raises ends the table. */
  method TableLines(segments: seq<Segment>, paths: seq<Paths.ProposedPath>, cutoff: real,
                    minimum: Option<real>, maximum: Option<real>)
    returns (r: Result<seq<Row>, ReportError>)
    ensures r == Lines(segments, Paths.NumbersOf(paths), Paths.DepthsOf(paths), cutoff, minimum, maximum)
  {
    ghost var make := RowMaker(Paths.NumbersOf(paths), Paths.DepthsOf(paths), cutoff, minimum, maximum);
    var rows: seq<Row> := [];
    ghost var lines: seq<Option<Row>> := [];
    for i := 0 to |segments|
      invariant MapAll(segments[..i], make) == Ok(lines)
      invariant rows == Somes(lines)
    {
      var line := SegmentLine(segments[i], paths, cutoff, minimum, maximum);
      assert line == make(segments[i]);
      if line.Err? {
        MapAllStepFails(segments, i, make);
        return Err(line.error);
      }
      MapAllStepGoesOn(segments, i, make, lines);
      SomesSnoc(lines, line.value);
      if line.value.Some? {
        rows := rows + [line.value.value];
      }
      lines := lines + [line.value];
    }
    assert segments[..|segments|] == segments;
    r := Ok(rows);
  }
}
