/** Proposed paths: parsing one line of the paths file (`ProposedPath.__init__`), the path
    objects whose unique segments and depth are filled in later, `load_paths`, and the two
    passes of `main` over all paths (`determine_graph_segment_uniqueness` and
    `determine_path_depths`). */
module Paths {
  import opened Results
  import opened Text
  import opened Segments
  import opened Uniqueness
  import opened Depth

  /** Why a line of the paths file is refused: it is blank once whitespace is removed, a
      token is not a number once its signs are removed (`int()`), or a token is not the key
      of a graph segment (`segments_dict[x]`). */
  datatype PathError = EmptyPath | NotANumber(text: string) | UnknownSegment(token: string)

  /** What `ProposedPath.__init__` reads from a line: the signed tokens, their numbers and
      the graph segments they name. */
  datatype ParsedPath = ParsedPath(numbersWithSign: seq<string>, numbersWithoutSign: seq<nat>,
                                   segments: seq<Segment>)

  /** `x.replace('+', '')` followed by `.replace('-', '')`. */
  function StripSigns(token: string): (r: string)
    ensures '+' !in r && '-' !in r
    ensures |r| <= |token|
  {
    RemoveChar(RemoveChar(token, '+'), '-')
  }

  /** `int(...)` of a token with its signs removed. */
  function UnsignedNumber(token: string): (r: Result<nat, PathError>)
    ensures r.Ok? <==> ParseNat(StripSigns(token)).Some?
  {
    var text := StripSigns(token);
    match ParseNat(text)
    case None => Err(NotANumber(text))
    case Some(n) => Ok(n)
  }

  /** `segments_dict[token]`. */
  function Lookup(token: string, catalog: map<string, Segment>): (r: Result<Segment, PathError>)
    ensures r.Ok? <==> token in catalog
    ensures r.Ok? ==> r.value == catalog[token]
  {
    if token in catalog then Ok(catalog[token]) else Err(UnknownSegment(token))
  }

  function Lookups(catalog: map<string, Segment>): string -> Result<Segment, PathError>
  {
    token => Lookup(token, catalog)
  }

  /** `ProposedPath(line, segments_dict)`: all whitespace removed, the rest split on ',';
      every token is read as a number first, and only then looked up in the dictionary. */
  function ParsePath(line: string, catalog: map<string, Segment>): (r: Result<ParsedPath, PathError>)
    ensures r == Err(EmptyPath) <==> IsBlank(line)
    ensures r.Ok? ==> var p := r.value;
                      |p.numbersWithSign| >= 1 &&
                      |p.numbersWithoutSign| == |p.numbersWithSign| == |p.segments| &&
                      forall i :: 0 <= i < |p.segments| ==>
                        p.numbersWithSign[i] in catalog && p.segments[i] == catalog[p.numbersWithSign[i]]
  {
    var text := RemoveWhitespace(line);
    if |text| == 0 then Err(EmptyPath)
    else ReadTokens(Split(text, ','), catalog)
  }

  /** The tokens of a line read as a path: the numbers of all tokens first, then their
      segments; the first token refused decides the error. */
  function ReadTokens(tokens: seq<string>, catalog: map<string, Segment>): (r: Result<ParsedPath, PathError>)
    ensures r.Err? ==> r.error != EmptyPath
    ensures r.Ok? ==> var p := r.value;
                      p.numbersWithSign == tokens &&
                      |p.numbersWithoutSign| == |tokens| == |p.segments| &&
                      (forall i :: 0 <= i < |tokens| ==> UnsignedNumber(tokens[i]) == Ok(p.numbersWithoutSign[i])) &&
                      forall i :: 0 <= i < |p.segments| ==>
                        tokens[i] in catalog && p.segments[i] == catalog[tokens[i]]
  {
    match MapAll(tokens, UnsignedNumber)
    case Err(e) => Err(e)
    case Ok(numbers) =>
      match MapAll(tokens, Lookups(catalog))
      case Err(e) => Err(e)
      case Ok(segments) => Ok(ParsedPath(tokens, numbers, segments))
  }

  /** Whitespace anywhere in a line, even inside a token, is ignored. */
  lemma ParsePathIgnoresWhitespace(line: string, catalog: map<string, Segment>)
    ensures ParsePath(line, catalog) == ParsePath(RemoveWhitespace(line), catalog)
  {
    RemoveWhitespaceNone(RemoveWhitespace(line));
  }

  /** The signed tokens of a path, joined by ',', are the line without its whitespace. */
  lemma ParsePathTokens(line: string, catalog: map<string, Segment>)
    requires ParsePath(line, catalog).Ok?
    ensures Join(ParsePath(line, catalog).value.numbersWithSign, ',') == RemoveWhitespace(line)
  {
    JoinSplit(RemoveWhitespace(line), ',');
  }

  /** Removing the signs from a segment key leaves the segment number. */
  lemma StripSignedKey(n: nat, positive: bool)
    ensures StripSigns(SignedKey(n, positive)) == NatToString(n)
  {
    var digits := NatToString(n);
    var sign := if positive then '+' else '-';
    assert SignedKey(n, positive) == digits + [sign];
    DigitsExclude(digits, '+');
    DigitsExclude(digits, '-');
    RemoveCharAppend(digits, [sign], '+');
    RemoveCharAbsent(digits, '+');
    var once := RemoveChar(digits + [sign], '+');
    RemoveCharAppend(digits, RemoveChar([sign], '+'), '-');
    RemoveCharAbsent(digits, '-');
    assert RemoveChar(RemoveChar([sign], '+'), '-') == [];
  }


  /** The number read from a segment's key is the segment's number: `int()` of the key with
      its sign removed gives back the number that `get_number_with_sign` wrote. */
  lemma UnsignedOfSignedKey(n: nat, positive: bool)
    ensures UnsignedNumber(SignedKey(n, positive)) == Ok(n)
  {
    StripSignedKey(n, positive);
    ParseNatToString(n, n);
  }

  /** Over a dictionary built by `main`, the unsigned number of each token is the number of
      the segment it names. */
  lemma ParsePathNumbers(line: string, catalog: map<string, Segment>)
    requires Consistent(catalog)
    requires ParsePath(line, catalog).Ok?
    ensures var p := ParsePath(line, catalog).value;
            forall i :: 0 <= i < |p.segments| ==> p.numbersWithoutSign[i] == p.segments[i].number
  {
    var tokens := Split(RemoveWhitespace(line), ',');
    var p := ReadTokens(tokens, catalog).value;
    forall i | 0 <= i < |p.segments| ensures p.numbersWithoutSign[i] == p.segments[i].number {
      KeyToken(tokens[i], catalog);
    }
  }

  /** A key of the dictionary is a token without ',' or whitespace whose unsigned number is
      the number of the segment stored under it. */
  lemma KeyToken(key: string, catalog: map<string, Segment>)
    requires Consistent(catalog) && key in catalog
    ensures key != [] && ',' !in key
    ensures forall k :: 0 <= k < |key| ==> !IsWhitespace(key[k])
    ensures UnsignedNumber(key) == Ok(catalog[key].number)
  {
    var s := catalog[key];
    assert key == SignedKey(s.number, s.positive);
    StripSignedKey(s.number, s.positive);
    ParseNatToString(s.number, s.number);
  }

  /** Tokens without ',' or whitespace, joined by ',' and followed by a line end, lose only
      the line end to whitespace removal and split back into the tokens. */
  lemma TokensLine(tokens: seq<string>, lineEnd: string)
    requires |tokens| >= 1 && tokens[0] != [] && IsBlank(lineEnd)
    requires forall i :: 0 <= i < |tokens| ==> ',' !in tokens[i]
    requires forall i, k :: 0 <= i < |tokens| && 0 <= k < |tokens[i]| ==> !IsWhitespace(tokens[i][k])
    ensures RemoveWhitespace(Join(tokens, ',') + lineEnd) == Join(tokens, ',')
    ensures Join(tokens, ',') != []
    ensures Split(Join(tokens, ','), ',') == tokens
  {
    var text := Join(tokens, ',');
    JoinStartsWith(tokens, ',');
    JoinNoWhitespace(tokens);
    LineEndRemoved(text, lineEnd);
    SplitJoin(tokens, ',');
  }

  /** Text without whitespace followed by a line end loses only the line end to whitespace
      removal. */
  lemma LineEndRemoved(text: string, lineEnd: string)
    requires forall k :: 0 <= k < |text| ==> !IsWhitespace(text[k])
    requires IsBlank(lineEnd)
    ensures RemoveWhitespace(text + lineEnd) == text
  {
    RemoveWhitespaceAppend(text, lineEnd);
    RemoveWhitespaceNone(text);
    assert text + RemoveWhitespace(lineEnd) == text;
  }

  /** A line whose whitespace-free text splits into tokens that all read as numbers and all
      name segments is read as the path over those tokens. */
  lemma ParsePathOfTokens(line: string, catalog: map<string, Segment>, tokens: seq<string>,
                          numbers: seq<nat>, segments: seq<Segment>)
    requires RemoveWhitespace(line) != [] && Split(RemoveWhitespace(line), ',') == tokens
    requires MapAll(tokens, UnsignedNumber) == Ok(numbers)
    requires MapAll(tokens, Lookups(catalog)) == Ok(segments)
    ensures ParsePath(line, catalog) == Ok(ParsedPath(tokens, numbers, segments))
  {
  }

  /** The keys of segments of the dictionary, written one after the other with ',' (and
      followed by a line end), read back as a path over those segments. */
  lemma ParsePathOfKeys(keys: seq<string>, lineEnd: string, catalog: map<string, Segment>)
    requires Consistent(catalog)
    requires |keys| >= 1 && forall i :: 0 <= i < |keys| ==> keys[i] in catalog
    requires IsBlank(lineEnd)
    ensures ParsePath(Join(keys, ',') + lineEnd, catalog) ==
            Ok(ParsedPath(keys, seq(|keys|, i requires 0 <= i < |keys| => catalog[keys[i]].number),
                          seq(|keys|, i requires 0 <= i < |keys| => catalog[keys[i]])))
  {
    var numbers: seq<nat> := seq(|keys|, i requires 0 <= i < |keys| => catalog[keys[i]].number);
    var segments: seq<Segment> := seq(|keys|, i requires 0 <= i < |keys| => catalog[keys[i]]);
    forall i | 0 <= i < |keys|
      ensures keys[i] != [] && ',' !in keys[i]
      ensures forall k :: 0 <= k < |keys[i]| ==> !IsWhitespace(keys[i][k])
      ensures UnsignedNumber(keys[i]) == Ok(numbers[i])
    {
      KeyToken(keys[i], catalog);
    }
    var line := Join(keys, ',') + lineEnd;
    TokensLine(keys, lineEnd);
    MapAllOfValues<string, nat, PathError>(keys, UnsignedNumber, numbers);
    MapAllOfValues<string, Segment, PathError>(keys, Lookups(catalog), segments);
    ParsePathOfTokens(line, catalog, keys, numbers, segments);
  }

  /** Tokens without whitespace, joined by ',', hold no whitespace. */
  lemma {:induction false} JoinNoWhitespace(parts: seq<string>)
    requires forall i, k :: 0 <= i < |parts| && 0 <= k < |parts[i]| ==> !IsWhitespace(parts[i][k])
    ensures forall k :: 0 <= k < |Join(parts, ',')| ==> !IsWhitespace(Join(parts, ',')[k])
  {
    if |parts| > 1 {
      JoinNoWhitespace(parts[1..]);
      var rest := Join(parts[1..], ',');
      assert Join(parts, ',') == parts[0] + [','] + rest;
      forall k | 0 <= k < |Join(parts, ',')| ensures !IsWhitespace(Join(parts, ',')[k]) {
        if k > |parts[0]| {
          assert Join(parts, ',')[k] == rest[k - |parts[0]| - 1];
        }
      }
    }
  }

  /** A proposed path: what was read from its line, and what later passes work out about it. */
  class ProposedPath {
    const numbersWithSign: seq<string>
    const numbersWithoutSign: seq<nat>
    const segments: seq<Segment>
    /** The numbers of this path that no other path contains, in path order. */
    var uniqueSegments: seq<nat>
    /** The median depth of the unique segments. */
    var depth: real

    constructor (parsed: ParsedPath)
      ensures Parsed() == parsed
      ensures uniqueSegments == [] && depth == 0.0
    {
      numbersWithSign := parsed.numbersWithSign;
      numbersWithoutSign := parsed.numbersWithoutSign;
      segments := parsed.segments;
      uniqueSegments := [];
      depth := 0.0;
    }

    function Parsed(): ParsedPath
    {
      ParsedPath(numbersWithSign, numbersWithoutSign, segments)
    }

    /** `contains_segment`: whether the number occurs in the path, that is, occurs at least
        once. */
    predicate ContainsSegment(n: nat)
      ensures ContainsSegment(n) <==> Count(numbersWithoutSign, n) > 0
    {
      n in numbersWithoutSign
    }

    /** `determine_unique_segments`: flags each number by whether some other path contains
        it, stopping the search at the first path that does, then keeps the unflagged
        numbers. */
    method DetermineUniqueSegments(otherPaths: seq<ProposedPath>)
      modifies this
      ensures uniqueSegments == UniqueIds(numbersWithoutSign, NumbersOf(otherPaths))
      ensures depth == old(depth)
    {
      var others := NumbersOf(otherPaths);
      var uniqueness: seq<bool> := [];
      var i := 0;
      while i < |numbersWithoutSign|
        invariant 0 <= i <= |numbersWithoutSign| && |uniqueness| == i
        invariant forall k :: 0 <= k < i ==> uniqueness[k] == InNoPath(numbersWithoutSign[k], others)
      {
        var n := numbersWithoutSign[i];
        var unique := true;
        var j := 0;
        while j < |otherPaths|
          invariant 0 <= j <= |otherPaths|
          invariant unique
          invariant forall m :: 0 <= m < j ==> n !in others[m]
        {
          if n in otherPaths[j].numbersWithoutSign {
            unique := false;
            break;
          }
          j := j + 1;
        }
        assert unique == InNoPath(n, others);
        uniqueness := uniqueness + [unique];
        i := i + 1;
      }
      uniqueSegments := Select(numbersWithoutSign, uniqueness);
      SelectUnique(numbersWithoutSign, uniqueness, others);
    }

    /** `determine_depth`: collects the samples of the unique segments, sorts them and takes
        their median. A unique number without a forward segment, or having no samples at all,
        raises before the depth is set. */
    method DetermineDepth(catalog: map<string, Segment>, kmer: int) returns (error: Option<DepthError>)
      modifies this
      ensures uniqueSegments == old(uniqueSegments)
      ensures error.None? ==> DepthOf(uniqueSegments, catalog, kmer) == Ok(depth)
      ensures error.Some? ==> DepthOf(uniqueSegments, catalog, kmer) == Err(error.value) && depth == old(depth)
    {
      var collected := CollectSamples(uniqueSegments, catalog, kmer);
      if collected.Err? {
        return Some(collected.error);
      }
      var median := TakeMedian(collected.value);
      if median.Err? {
        return Some(median.error);
      }
      depth := median.value;
      error := None;
    }
  }

  /** The last steps of `determine_depth`: the samples are sorted and the middle one taken,
      or the mean of the two middle ones when their count is even. */
  method TakeMedian(samples: seq<real>) returns (r: Result<real, DepthError>)
    ensures r == SampleMedian(samples)
  {
    var sorted := Sort(samples);
    var count := |sorted|;
    if count == 0 {
      return Err(NoSamples);
    }
    var mid := (count - 1) / 2;
    var median: real;
    if count % 2 == 1 {
      median := sorted[mid];
    } else {
      median := (sorted[mid] + sorted[mid + 1]) / 2.0;
    }
    assert median == Median(sorted);
    r := Ok(median);
  }

  /** The loops of `determine_depth` that build the list of samples: for each unique number,
      its forward segment's depth appended once per base beyond the k-mer. */
  method CollectSamples(unique: seq<nat>, catalog: map<string, Segment>, kmer: int)
    returns (r: Result<seq<real>, DepthError>)
    ensures r == Samples(unique, catalog, kmer)
  {
    var depths: seq<real> := [];
    var i := 0;
    while i < |unique|
      invariant 0 <= i <= |unique|
      invariant Samples(unique[..i], catalog, kmer) == Ok(depths)
    {
      var n := unique[i];
      var key := ForwardKey(n);
      SamplesSnoc(unique, i, catalog, kmer);
      if key !in catalog {
        return Err(MissingForward(n));
      }
      var segment := catalog[key];
      depths := AppendRun(depths, segment.depth, segment.length - kmer);
      i := i + 1;
    }
    assert unique[..i] == unique;
    r := Ok(depths);
  }

  /** The inner loop of `determine_depth`: the depth is appended once per base beyond the
      k-mer, and not at all when the segment is no longer than the k-mer. */
  method AppendRun(depths: seq<real>, d: real, count: int) returns (r: seq<real>)
    ensures r == depths + Repeat(d, if count > 0 then count else 0)
  {
    r := depths;
    var j := 0;
    while j < count
      invariant 0 <= j && (j <= count || j == 0)
      invariant r == depths + Repeat(d, j)
    {
      assert Repeat(d, j + 1) == Repeat(d, j) + [d];
      r := r + [d];
      j := j + 1;
    }
  }

  /** The unsigned numbers of each path read. */
  function NumbersOfParsed(parsed: seq<ParsedPath>): (r: seq<seq<nat>>)
    ensures |r| == |parsed|
    ensures forall i :: 0 <= i < |parsed| ==> r[i] == parsed[i].numbersWithoutSign
  {
    seq(|parsed|, i requires 0 <= i < |parsed| => parsed[i].numbersWithoutSign)
  }

  /** The unsigned numbers of each path object: those it was read with. */
  function NumbersOf(paths: seq<ProposedPath>): (r: seq<seq<nat>>)
    ensures |r| == |paths|
    ensures forall i :: 0 <= i < |paths| ==> r[i] == paths[i].numbersWithoutSign
  {
    NumbersOfParsed(ParsedOf(paths))
  }

  /** The numbers of the other paths are the other paths' numbers. */
  lemma NumbersOfOthers(paths: seq<ProposedPath>, i: nat)
    requires i < |paths|
    ensures NumbersOf(Others(paths, i)) == Others(NumbersOf(paths), i)
  {
  }

  lemma ParsedOfSnoc(paths: seq<ProposedPath>, path: ProposedPath)
    ensures ParsedOf(paths + [path]) == ParsedOf(paths) + [path.Parsed()]
  {
  }

  /** What was read for each path. */
  function ParsedOf(paths: seq<ProposedPath>): (r: seq<ParsedPath>)
    ensures |r| == |paths|
    ensures forall i :: 0 <= i < |paths| ==> r[i] == paths[i].Parsed()
  {
    seq(|paths|, i requires 0 <= i < |paths| => paths[i].Parsed())
  }

  /** The unique segments found for each path. */
  function UniqueLists(paths: seq<ProposedPath>): (r: seq<seq<nat>>)
    reads paths
    ensures |r| == |paths|
    ensures forall i :: 0 <= i < |paths| ==> r[i] == paths[i].uniqueSegments
  {
    seq(|paths|, i requires 0 <= i < |paths| reads paths => paths[i].uniqueSegments)
  }

  /** The depth found for each path. */
  function DepthsOf(paths: seq<ProposedPath>): (r: seq<real>)
    reads paths
    ensures |r| == |paths|
    ensures forall i :: 0 <= i < |paths| ==> r[i] == paths[i].depth
  {
    seq(|paths|, i requires 0 <= i < |paths| reads paths => paths[i].depth)
  }

  predicate Distinct(paths: seq<ProposedPath>)
  {
    forall i, j :: 0 <= i < j < |paths| ==> paths[i] != paths[j]
  }

  lemma DistinctSnoc(paths: seq<ProposedPath>, path: ProposedPath)
    requires Distinct(paths) && path !in paths
    ensures Distinct(paths + [path])
  {
  }

  /** The lines `load_paths` reads: those that are not blank. */
  predicate NonBlank(line: string)
  {
    !IsBlank(line)
  }

  function PathParser(catalog: map<string, Segment>): string -> Result<ParsedPath, PathError>
  {
    line => ParsePath(line, catalog)
  }

  /** `load_paths` on the lines of the paths file: every non-blank line read as a path, in
      file order; the first line that is refused aborts the load. */
  function PathsOf(lines: seq<string>, catalog: map<string, Segment>): (r: Result<seq<ParsedPath>, PathError>)
    ensures r.Ok? ==> |r.value| <= |lines|
    ensures r.Ok? ==> forall k :: 0 <= k < |r.value| ==>
              exists line :: line in lines && NonBlank(line) && ParsePath(line, catalog) == Ok(r.value[k])
    ensures r.Err? ==> exists line :: line in lines && NonBlank(line) && ParsePath(line, catalog) == Err(r.error)
  {
    MapAll(Filter(lines, NonBlank), PathParser(catalog))
  }

  /** The loop of `load_paths`: every non-blank line is read as a path, and a new path object
      is made for each of them, in file order. */
  method LoadPaths(lines: seq<string>, catalog: map<string, Segment>)
    returns (r: Result<seq<ProposedPath>, PathError>)
    ensures r.Err? ==> PathsOf(lines, catalog) == Err(r.error)
    ensures r.Ok? ==> PathsOf(lines, catalog) == Ok(ParsedOf(r.value)) && Distinct(r.value)
    ensures r.Ok? ==> forall i :: 0 <= i < |r.value| ==> fresh(r.value[i])
  {
    var read := ReadPaths(lines, catalog);
    if read.Err? {
      return Err(read.error);
    }
    var paths := NewPaths(read.value);
    r := Ok(paths);
  }

  /** The reading half of `load_paths`: every non-blank line read as a path, in file order. */
  method ReadPaths(lines: seq<string>, catalog: map<string, Segment>) returns (r: Result<seq<ParsedPath>, PathError>)
    ensures r == PathsOf(lines, catalog)
  {
    r := CollectParsed(lines, NonBlank, PathParser(catalog));
  }

  /** One new, distinct path object for each path read. */
  method NewPaths(parsed: seq<ParsedPath>) returns (paths: seq<ProposedPath>)
    ensures ParsedOf(paths) == parsed
    ensures Distinct(paths)
    ensures forall i :: 0 <= i < |paths| ==> fresh(paths[i])
  {
    paths := [];
    for i := 0 to |parsed|
      invariant ParsedOf(paths) == parsed[..i]
      invariant Distinct(paths)
      invariant forall k :: 0 <= k < |paths| ==> fresh(paths[k])
    {
      assert parsed[..i + 1] == parsed[..i] + [parsed[i]];
      var path := new ProposedPath(parsed[i]);
      DistinctSnoc(paths, path);
      ParsedOfSnoc(paths, path);
      paths := paths + [path];
    }
    assert parsed[..|parsed|] == parsed;
  }

  /** `determine_graph_segment_uniqueness`: each path's unique segments are found against all
      the other paths. (The graph segments and the dictionary it is also given are unused.) */
  method DetermineGraphSegmentUniqueness(paths: seq<ProposedPath>)
    requires Distinct(paths)
    modifies set i | 0 <= i < |paths| :: paths[i]
    ensures forall i :: 0 <= i < |paths| ==> paths[i].uniqueSegments == UniqueOf(NumbersOf(paths), i)
    ensures forall i :: 0 <= i < |paths| ==> paths[i].depth == old(paths[i].depth)
  {
    ghost var numbers := NumbersOf(paths);
    ghost var depths := DepthsOf(paths);
    for i := 0 to |paths|
      invariant UniqueUpTo(numbers, UniqueLists(paths), i)
      invariant DepthsOf(paths) == depths
    {
      UniqueStep(paths, i, numbers, depths);
    }
  }

  /** One round of the loop of `determine_graph_segment_uniqueness`: path `i` gets its unique
      numbers, measured against all the other paths. */
  method UniqueStep(paths: seq<ProposedPath>, i: nat, ghost numbers: seq<seq<nat>>, ghost depths: seq<real>)
    requires Distinct(paths) && i < |paths| && numbers == NumbersOf(paths)
    requires UniqueUpTo(numbers, UniqueLists(paths), i)
    requires DepthsOf(paths) == depths
    modifies paths[i]
    ensures UniqueUpTo(numbers, UniqueLists(paths), i + 1)
    ensures DepthsOf(paths) == depths
  {
    ghost var before := UniqueLists(paths);
    var path := paths[i];
    var others := paths[..i] + paths[i + 1..];
    NumbersOfOthers(paths, i);
    path.DetermineUniqueSegments(others);
    assert UniqueLists(paths) == before[i := path.uniqueSegments];
    assert DepthsOf(paths) == depths;
    UniqueUpToStep(numbers, before, i, path.uniqueSegments);
  }

  /** Setting the unique numbers of path `i` extends the paths that have theirs by one. */
  lemma UniqueUpToStep(numbers: seq<seq<nat>>, uniques: seq<seq<nat>>, i: nat, unique: seq<nat>)
    requires i < |numbers| == |uniques|
    requires UniqueUpTo(numbers, uniques, i)
    requires unique == UniqueOf(numbers, i)
    ensures UniqueUpTo(numbers, uniques[i := unique], i + 1)
  {
  }

  /** The first `i` paths have their unique numbers. */
  predicate UniqueUpTo(numbers: seq<seq<nat>>, uniques: seq<seq<nat>>, i: nat)
    requires i <= |numbers| == |uniques|
  {
    forall k :: 0 <= k < i ==> uniques[k] == UniqueOf(numbers, k)
  }

  function PathDepth(catalog: map<string, Segment>, kmer: int): seq<nat> -> Result<real, DepthError>
  {
    unique => DepthOf(unique, catalog, kmer)
  }

  /** `determine_path_depths`: the depth of every path in turn; the first path whose depth
      cannot be found aborts the pass, after the paths before it got theirs. */
  method DeterminePathDepths(paths: seq<ProposedPath>, catalog: map<string, Segment>, kmer: int)
    returns (error: Option<DepthError>)
    requires Distinct(paths)
    modifies set i | 0 <= i < |paths| :: paths[i]
    ensures UniqueLists(paths) == old(UniqueLists(paths))
    ensures error.None? ==> DepthsUpTo(UniqueLists(paths), DepthsOf(paths), |paths|, catalog, kmer)
    ensures error.Some? ==> exists i :: 0 <= i < |paths| && DepthFailsAt(UniqueLists(paths), i, error.value, catalog, kmer)
  {
    ghost var uniques := UniqueLists(paths);
    for i := 0 to |paths|
      invariant UniqueLists(paths) == uniques
      invariant DepthsUpTo(uniques, DepthsOf(paths), i, catalog, kmer)
    {
      var err := DepthStep(paths, i, catalog, kmer, uniques);
      if err.Some? {
        return err;
      }
    }
    error := None;
  }

  /** One round of the loop of `determine_path_depths`: path `i` gets its depth, or is the
      first path to raise. */
  method DepthStep(paths: seq<ProposedPath>, i: nat, catalog: map<string, Segment>, kmer: int,
                   ghost uniques: seq<seq<nat>>)
    returns (error: Option<DepthError>)
    requires Distinct(paths) && i < |paths|
    requires UniqueLists(paths) == uniques
    requires DepthsUpTo(uniques, DepthsOf(paths), i, catalog, kmer)
    modifies paths[i]
    ensures UniqueLists(paths) == uniques
    ensures error.None? ==> DepthsUpTo(uniques, DepthsOf(paths), i + 1, catalog, kmer)
    ensures error.Some? ==> DepthFailsAt(uniques, i, error.value, catalog, kmer)
  {
    ghost var before := DepthsOf(paths);
    var path := paths[i];
    error := path.DetermineDepth(catalog, kmer);
    assert UniqueLists(paths) == uniques;
    if error.Some? {
      DepthsUpToFails(uniques, before, i, error.value, catalog, kmer);
      return;
    }
    assert DepthsOf(paths) == before[i := path.depth];
    DepthsUpToStep(uniques, before, i, path.depth, catalog, kmer);
  }

  /** The first `i` paths have the depths of their unique numbers. */
  predicate DepthsUpTo(uniques: seq<seq<nat>>, depths: seq<real>, i: nat, catalog: map<string, Segment>, kmer: int)
    requires i <= |uniques| == |depths|
  {
    forall k :: 0 <= k < i ==> DepthOf(uniques[k], catalog, kmer) == Ok(depths[k])
  }

  /** Path `i` is the first path whose depth cannot be found, and `e` is what it raises. */
  predicate DepthFailsAt(uniques: seq<seq<nat>>, i: nat, e: DepthError, catalog: map<string, Segment>, kmer: int)
    requires i < |uniques|
  {
    DepthOf(uniques[i], catalog, kmer) == Err(e) &&
    forall j :: 0 <= j < i ==> DepthOf(uniques[j], catalog, kmer).Ok?
  }

  /** Setting the depth of path `i` to that of its unique numbers extends the paths that have
      their depths by one. */
  lemma DepthsUpToStep(uniques: seq<seq<nat>>, depths: seq<real>, i: nat, d: real,
                       catalog: map<string, Segment>, kmer: int)
    requires i < |uniques| == |depths|
    requires DepthsUpTo(uniques, depths, i, catalog, kmer)
    requires DepthOf(uniques[i], catalog, kmer) == Ok(d)
    ensures DepthsUpTo(uniques, depths[i := d], i + 1, catalog, kmer)
  {
  }

  /** The paths before `i` have their depths and path `i` raises: it is the first to fail. */
  lemma DepthsUpToFails(uniques: seq<seq<nat>>, depths: seq<real>, i: nat, e: DepthError,
                        catalog: map<string, Segment>, kmer: int)
    requires i < |uniques| == |depths|
    requires DepthsUpTo(uniques, depths, i, catalog, kmer)
    requires DepthOf(uniques[i], catalog, kmer) == Err(e)
    ensures DepthFailsAt(uniques, i, e, catalog, kmer)
  {
  }
}
