/** `main`: the graph is loaded and indexed by signed number, the paths are read against that
    index, each path's unique segments and depth are found, and the table is produced. The
    command line and the files are replaced by their values: the lines of the graph file, the
    lines of the paths file, the k-mer size, the depth cutoff and the ratio band. */
module Checker {
  import opened Results
  import opened Segments
  import opened Uniqueness
  import opened Depth
  import Paths
  import Report

  /** The step of `main` that raised, and what it raised. */
  datatype CheckError =
    | BadGraph(header: HeaderError)
    | BadPath(path: Paths.PathError)
    | NoDepth(depth: DepthError)
    | NoTable(table: Report.ReportError)

  /** The unique numbers of every path, each measured against all the others. */
  function AllUnique(numbers: seq<seq<nat>>): (r: seq<seq<nat>>)
    ensures |r| == |numbers|
    ensures forall i :: 0 <= i < |numbers| ==> r[i] == UniqueOf(numbers, i)
  {
    seq(|numbers|, i requires 0 <= i < |numbers| => UniqueOf(numbers, i))
  }

  /** What `main` prints once the graph and the paths are read: the table rows, or the first
      step that raises. */
  function Analysis(graphSegments: seq<Segment>, catalog: map<string, Segment>, numbers: seq<seq<nat>>,
                    kmer: int, cutoff: real, minimum: Option<real>, maximum: Option<real>)
    : (r: Result<seq<Report.Row>, CheckError>)
    ensures r.Err? ==> r.error.NoDepth? || r.error.NoTable?
    ensures r.Ok? ==> forall row :: row in r.value ==>
              exists segment :: segment in graphSegments && segment.positive && segment.number == row.number &&
                                segment.depth == row.actual && cutoff <= row.actual
  {
    match MapAll(AllUnique(numbers), Paths.PathDepth(catalog, kmer))
    case Err(e) => Err(NoDepth(e))
    case Ok(depths) =>
      match Report.Report(graphSegments, numbers, depths, cutoff, minimum, maximum)
      case Err(e) => Err(NoTable(e))
      case Ok(rows) =>
        Report.RowsFromSegments(graphSegments, numbers, depths, cutoff, minimum, maximum);
        Ok(rows)
  }

  /** What the checker prints, computed from the two files' lines and the options: the table
      rows, or the first step that raises. */
  function Check(graphLines: seq<string>, pathLines: seq<string>, kmer: int, cutoff: real,
                 minimum: Option<real>, maximum: Option<real>): (r: Result<seq<Report.Row>, CheckError>)
    ensures GraphSegments(graphLines).Err? <==> r.Err? && r.error.BadGraph?
    ensures r.Err? && r.error.BadPath? ==> Paths.PathsOf(pathLines, Catalog(GraphSegments(graphLines).value)).Err?
    ensures r.Ok? ==> GraphSegments(graphLines).Ok? && forall row :: row in r.value ==>
              exists segment :: segment in GraphSegments(graphLines).value && segment.positive &&
                                segment.number == row.number && segment.depth == row.actual && cutoff <= row.actual
  {
    match GraphSegments(graphLines)
    case Err(e) => Err(BadGraph(e))
    case Ok(graphSegments) =>
      var catalog := Catalog(graphSegments);
      match Paths.PathsOf(pathLines, catalog)
      case Err(e) => Err(BadPath(e))
      case Ok(parsed) => Analysis(graphSegments, catalog, Paths.NumbersOfParsed(parsed), kmer, cutoff, minimum, maximum)
  }

  /** Every path has a depth: the depths found are those of the whole pass. */
  lemma DepthsFound(uniques: seq<seq<nat>>, catalog: map<string, Segment>, kmer: int, depths: seq<real>)
    requires |depths| == |uniques|
    requires forall i :: 0 <= i < |uniques| ==> DepthOf(uniques[i], catalog, kmer) == Ok(depths[i])
    ensures MapAll(uniques, Paths.PathDepth(catalog, kmer)) == Ok(depths)
  {
    var f := Paths.PathDepth(catalog, kmer);
    assert forall i :: 0 <= i < |uniques| ==> f(uniques[i]) == Ok(depths[i]);
    var r := MapAll(uniques, f);
    assert r.value == depths;
  }

  /** The paths before path `i` have a depth and path `i` has none: its error is that of the
      whole pass. */
  lemma DepthsFail(uniques: seq<seq<nat>>, catalog: map<string, Segment>, kmer: int, i: nat)
    requires i < |uniques| && DepthOf(uniques[i], catalog, kmer).Err?
    requires forall j :: 0 <= j < i ==> DepthOf(uniques[j], catalog, kmer).Ok?
    ensures MapAll(uniques, Paths.PathDepth(catalog, kmer)) == Err(DepthOf(uniques[i], catalog, kmer).error)
  {
  }

  /** The numbers of the path objects are those of the paths read. */
  lemma NumbersOfObjects(paths: seq<Paths.ProposedPath>, parsed: seq<Paths.ParsedPath>)
    requires Paths.ParsedOf(paths) == parsed
    ensures Paths.NumbersOf(paths) == Paths.NumbersOfParsed(parsed)
  {
  }

  /** `main`: each step in turn on the objects of the previous ones; the first step that
      raises ends the run. */
  method Run(graphLines: seq<string>, pathLines: seq<string>, kmer: int, cutoff: real,
             minimum: Option<real>, maximum: Option<real>)
    returns (r: Result<seq<Report.Row>, CheckError>)
    ensures r == Check(graphLines, pathLines, kmer, cutoff, minimum, maximum)
  {
    var loaded := LoadGraph(graphLines);
    if loaded.Err? {
      return Err(BadGraph(loaded.error));
    }
    var graphSegments := loaded.value;
    var catalog := Catalog(graphSegments);
    var read := Paths.LoadPaths(pathLines, catalog);
    if read.Err? {
      return Err(BadPath(read.error));
    }
    var paths := read.value;
    NumbersOfObjects(paths, Paths.PathsOf(pathLines, catalog).value);
    r := Analyse(graphSegments, catalog, paths, kmer, cutoff, minimum, maximum);
  }

  /** The last three steps of `main`, on the path objects just read. */
  method Analyse(graphSegments: seq<Segment>, catalog: map<string, Segment>, paths: seq<Paths.ProposedPath>,
                 kmer: int, cutoff: real, minimum: Option<real>, maximum: Option<real>)
    returns (r: Result<seq<Report.Row>, CheckError>)
    requires Paths.Distinct(paths)
    modifies set i | 0 <= i < |paths| :: paths[i]
    ensures r == Analysis(graphSegments, catalog, Paths.NumbersOf(paths), kmer, cutoff, minimum, maximum)
  {
    var failed := PathPhases(paths, catalog, kmer);
    if failed.Some? {
      return Err(NoDepth(failed.value));
    }
    var table := Report.OutputExpectedVsActual(graphSegments, paths, cutoff, minimum, maximum);
    if table.Err? {
      return Err(NoTable(table.error));
    }
    r := Ok(table.value);
  }

  /** `determine_graph_segment_uniqueness` then `determine_path_depths`: the depths stored are
      those of every path's unique numbers, or the pass stops at the first path without one. */
  method PathPhases(paths: seq<Paths.ProposedPath>, catalog: map<string, Segment>, kmer: int)
    returns (failed: Option<DepthError>)
    requires Paths.Distinct(paths)
    modifies set i | 0 <= i < |paths| :: paths[i]
    ensures failed.None? ==>
              MapAll(AllUnique(Paths.NumbersOf(paths)), Paths.PathDepth(catalog, kmer)) == Ok(Paths.DepthsOf(paths))
    ensures failed.Some? ==>
              MapAll(AllUnique(Paths.NumbersOf(paths)), Paths.PathDepth(catalog, kmer)) == Err(failed.value)
  {
    ghost var uniques := AllUnique(Paths.NumbersOf(paths));
    Paths.DetermineGraphSegmentUniqueness(paths);
    assert Paths.UniqueLists(paths) == uniques;
    failed := Paths.DeterminePathDepths(paths, catalog, kmer);
    DepthPass(uniques, catalog, kmer, Paths.DepthsOf(paths), failed);
  }

  /** The outcome of the depth pass, per path, is that of the whole pass. */
  lemma DepthPass(uniques: seq<seq<nat>>, catalog: map<string, Segment>, kmer: int, depths: seq<real>,
                  failed: Option<DepthError>)
    requires |depths| == |uniques|
    requires failed.None? ==> Paths.DepthsUpTo(uniques, depths, |uniques|, catalog, kmer)
    requires failed.Some? ==> exists i :: 0 <= i < |uniques| && Paths.DepthFailsAt(uniques, i, failed.value, catalog, kmer)
    ensures failed.None? ==> MapAll(uniques, Paths.PathDepth(catalog, kmer)) == Ok(depths)
    ensures failed.Some? ==> MapAll(uniques, Paths.PathDepth(catalog, kmer)) == Err(failed.value)
  {
    if failed.Some? {
      var i :| 0 <= i < |uniques| && Paths.DepthFailsAt(uniques, i, failed.value, catalog, kmer);
      DepthsFail(uniques, catalog, kmer, i);
    } else {
      DepthsFound(uniques, catalog, kmer, depths);
    }
  }
}
