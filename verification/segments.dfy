/** Graph segments: parsing one FASTG header line into a segment (`GraphSegment.__init__`),
    the signed key of a segment (`get_number_with_sign`), the key-to-segment dictionary that
    `main` builds, and `load_graph` taken over the lines of the graph file. */
module Segments {
  import opened Results
  import opened Text

  /** One orientation of one edge of the assembly graph. */
  datatype Segment = Segment(number: nat, length: nat, depth: real, positive: bool)

  /** What makes a header unreadable: fewer than six '_'-separated fields, or a field that
      `int()` or `float()` refuses. */
  datatype HeaderError =
    | PartsMissing
    | BadNumber(field: string)
    | BadLength(field: string)
    | BadDepth(field: string)

  /** The text of a header line that names the segment: trailing whitespace, one leading
      '>', one trailing ';' and everything from the first ':' on (the edge list) removed. */
  function HeaderName(header: string): (name: string)
    ensures ':' !in name
  {
    var stripped := RStrip(header);
    var unmarked := if |stripped| > 0 && stripped[0] == '>' then stripped[1..] else stripped;
    var unterminated :=
      if |unmarked| > 0 && unmarked[|unmarked| - 1] == ';' then unmarked[..|unmarked| - 1]
      else unmarked;
    Split(unterminated, ':')[0]
  }

  /** A name that ends in a quote denotes the reverse-complement orientation. */
  predicate IsReverse(name: string)
  {
    |name| > 0 && name[|name| - 1] == '\''
  }

  /** The name without its orientation quote, whose '_'-separated fields carry the data. */
  function FieldText(header: string): (fields: string)
    ensures ':' !in fields
    ensures HeaderName(header) == fields + (if IsReverse(HeaderName(header)) then "'" else "")
  {
    var name := HeaderName(header);
    if IsReverse(name) then name[..|name| - 1] else name
  }

  /** The value of a decimal token with digits `whole` before the point and `fraction` after. */
  function DecimalValue(whole: string, fraction: string): (v: real)
    requires AllDigits(whole) && AllDigits(fraction)
    ensures v >= 0.0
  {
    Decimal(DigitsValue(whole), fraction)
  }

  /** The number `<whole>.<fraction>`: `whole` plus the fraction's digits scaled down by ten
      for every digit. */
  function Decimal(whole: nat, fraction: string): (v: real)
    requires AllDigits(fraction)
    ensures v >= whole as real
  {
    whole as real + DigitsValue(fraction) as real / Pow10(|fraction|) as real
  }

  /** `float(t)` on a plain decimal token: digits, optionally a point and more digits, with
      at least one digit in all. Every depth it accepts is non-negative. */
  function ParseDecimal(t: string): (r: Option<real>)
    ensures r.Some? ==> r.value >= 0.0
  {
    var parts := Split(t, '.');
    if |parts| == 1 && |t| >= 1 && AllDigits(t) then Some(DigitsValue(t) as real)
    else if |parts| == 2 && AllDigits(parts[0]) && AllDigits(parts[1]) && |parts[0]| + |parts[1]| >= 1 then
      Some(DecimalValue(parts[0], parts[1]))
    else None
  }

  /** `GraphSegment(header)`: fields 1, 3 and 5 of the name are the number, the length and
      the depth, read in that order; the orientation comes from the name's last character. */
  function ParseHeader(header: string): (r: Result<Segment, HeaderError>)
    ensures var fields := Split(FieldText(header), '_');
            r.Ok? <==> |fields| >= 6 && ParseNat(fields[1]).Some? && ParseNat(fields[3]).Some? &&
                       ParseDecimal(fields[5]).Some?
    ensures r.Ok? ==> r.value.depth >= 0.0
    ensures r.Ok? ==> r.value.positive == !IsReverse(HeaderName(header))
    ensures r.Ok? ==> var fields := Split(FieldText(header), '_');
                      |fields| >= 6 && ParseNat(fields[1]) == Some(r.value.number) &&
                      ParseNat(fields[3]) == Some(r.value.length) && ParseDecimal(fields[5]) == Some(r.value.depth)
  {
    var fields := Split(FieldText(header), '_');
    if |fields| < 6 then Err(PartsMissing)
    else
      match (ParseNat(fields[1]), ParseNat(fields[3]), ParseDecimal(fields[5]))
      case (None, _, _) => Err(BadNumber(fields[1]))
      case (Some(_), None, _) => Err(BadLength(fields[3]))
      case (Some(_), Some(_), None) => Err(BadDepth(fields[5]))
      case (Some(number), Some(length), Some(depth)) =>
        Ok(Segment(number, length, depth, !IsReverse(HeaderName(header))))
  }

  /** A header is short of fields exactly when its field text has fewer than five '_'. */
  lemma PartsMissingIff(header: string)
    ensures ParseHeader(header) == Err(PartsMissing) <==> CountChar(FieldText(header), '_') < 5
  {
    SplitCount(FieldText(header), '_');
  }

  /** The depth token `<whole>.<fraction>` as SPAdes writes it. */
  function DepthToken(whole: nat, fraction: string): string
    requires AllDigits(fraction)
  {
    NatToString(whole) + "." + fraction
  }

  /** The fields of a header as SPAdes writes them: `EDGE_<n>_length_<l>_cov_<d>`. */
  function HeaderFieldText(number: nat, length: nat, whole: nat, fraction: string): string
    requires AllDigits(fraction)
  {
    Join(["EDGE", NatToString(number), "length", NatToString(length), "cov", DepthToken(whole, fraction)], '_')
  }

  /** The edge list of a header, if any, with its leading ':'. */
  function EdgeSuffix(edges: Option<string>): string
  {
    match edges
    case Some(e) => ":" + e
    case None => ""
  }

  /** The terminator of a header line: ';', or nothing on a header written without one. */
  function Terminator(terminated: bool): string
  {
    if terminated then ";" else ""
  }

  /** A FASTG header line `>EDGE_<n>_length_<l>_cov_<d>['][:<edges>][;]` followed by a line end. */
  function RenderHeader(number: nat, length: nat, whole: nat, fraction: string, positive: bool,
                        edges: Option<string>, terminated: bool, lineEnd: string): string
    requires AllDigits(fraction)
  {
    ">" + HeaderFieldText(number, length, whole, fraction) + (if positive then "" else "'") +
    EdgeSuffix(edges) + Terminator(terminated) + lineEnd
  }

  lemma DigitsExclude(s: string, c: char)
    requires AllDigits(s) && !IsDigit(c)
    ensures c !in s
  {
  }

  /** A depth written as `<whole>.<fraction>` reads back as its value. */
  lemma DepthTokenRoundTrip(whole: nat, fraction: string)
    requires AllDigits(fraction)
    ensures ParseDecimal(DepthToken(whole, fraction)) == Some(Decimal(whole, fraction))
  {
    var w := NatToString(whole);
    var t := DepthToken(whole, fraction);
    assert Split(t, '.') == [w, fraction] by {
      DigitsExclude(w, '.');
      DigitsExclude(fraction, '.');
      assert Join([w, fraction], '.') == t;
      SplitJoin([w, fraction], '.');
    }
    assert ParseDecimal(t) == Some(DecimalValue(w, fraction));
  }

  /** The line end, the '>', the ';' and the edge list are all cut away from a header line.
      Without a ';', the name must not end in whitespace or in a ';' of its own, which the
      stripping would take for the line end or the terminator. */
  lemma NameOfHeaderLine(name: string, edges: Option<string>, terminated: bool, lineEnd: string)
    requires ':' !in name
    requires IsBlank(lineEnd)
    requires !terminated ==> name != [] && !IsWhitespace(name[|name| - 1]) && name[|name| - 1] != ';'
    ensures HeaderName(">" + name + EdgeSuffix(edges) + Terminator(terminated) + lineEnd) == name
  {
    if terminated {
      assert ">" + name + EdgeSuffix(edges) + Terminator(terminated) + lineEnd ==
             ">" + name + EdgeSuffix(edges) + ";" + lineEnd;
      NameOfTerminatedLine(name, edges, lineEnd);
    } else {
      assert ">" + name + EdgeSuffix(edges) + Terminator(terminated) + lineEnd ==
             ">" + name + EdgeSuffix(edges) + lineEnd;
      match edges {
        case None => NameOfBareLine(name, lineEnd);
        case Some(e) => NameOfUnterminatedLine(name, e, lineEnd);
      }
    }
  }

  /** A line `><name><edges>;` with its line end gives its name back. */
  lemma NameOfTerminatedLine(name: string, edges: Option<string>, lineEnd: string)
    requires ':' !in name
    requires IsBlank(lineEnd)
    ensures HeaderName(">" + name + EdgeSuffix(edges) + ";" + lineEnd) == name
  {
    var tail := EdgeSuffix(edges);
    var line := ">" + name + tail + ";";
    var unterminated := name + tail;
    assert RStrip(">" + name + tail + ";" + lineEnd) == line by {
      assert ">" + name + tail + ";" + lineEnd == line + lineEnd;
      RStripPadded(line, lineEnd);
    }
    assert line[1..] == unterminated + ";";
    assert (unterminated + ";")[..|unterminated|] == unterminated;
    NameBeforeEdges(name, edges);
  }

  /** A line `><name>` with its line end, where the name ends in neither whitespace nor ';',
      gives its name back. */
  lemma NameOfBareLine(name: string, lineEnd: string)
    requires ':' !in name
    requires IsBlank(lineEnd)
    requires name != [] && !IsWhitespace(name[|name| - 1]) && name[|name| - 1] != ';'
    ensures HeaderName(">" + name + EdgeSuffix(None) + lineEnd) == name
  {
    var line := ">" + name;
    assert ">" + name + EdgeSuffix(None) + lineEnd == line + lineEnd;
    RStripPadded(line, lineEnd);
    assert line[1..] == name;
    SplitFirst(name, [], ':');
  }

  /** A line `><name>:<edges>` with its line end, where the name ends in neither whitespace
      nor ';', gives its name back: stripping may eat into the edge list, never past the ':'. */
  lemma NameOfUnterminatedLine(name: string, e: string, lineEnd: string)
    requires ':' !in name
    requires IsBlank(lineEnd)
    requires name != [] && !IsWhitespace(name[|name| - 1]) && name[|name| - 1] != ';'
    ensures HeaderName(">" + name + EdgeSuffix(Some(e)) + lineEnd) == name
  {
    var head := ">" + name + ":";
    var line := ">" + name + EdgeSuffix(Some(e)) + lineEnd;
    assert line == head + (e + lineEnd);
    assert line[..|head|] == head;
    RStripKeeps(line, |head| - 1);
    NameOfStrippedLine(line, name);
  }

  /** A line that still starts with `><name>:` once stripped of its line end names `name`,
      whether or not a ';' is cut from its end. */
  lemma NameOfStrippedLine(line: string, name: string)
    requires ':' !in name
    requires var stripped := RStrip(line);
             |stripped| >= |name| + 2 && stripped[..|name| + 2] == ">" + name + ":"
    ensures HeaderName(line) == name
  {
    var stripped := RStrip(line);
    assert stripped[0] == '>';
    var unmarked := stripped[1..];
    assert unmarked[..|name| + 1] == name + ":";
    var unterminated :=
      if |unmarked| > 0 && unmarked[|unmarked| - 1] == ';' then unmarked[..|unmarked| - 1]
      else unmarked;
    assert |unterminated| > |name| && unterminated[..|name| + 1] == name + ":" by {
      if |unmarked| > 0 && unmarked[|unmarked| - 1] == ';' {
        assert unmarked[|name|] == ':';
      }
    }
    assert HeaderName(line) == Split(unterminated, ':')[0];
    NameBeforeColon(unterminated, name);
  }

  /** A text that starts with the name and a ':' has the name as its first ':'-piece. */
  lemma NameBeforeColon(text: string, name: string)
    requires ':' !in name
    requires |text| > |name| && text[..|name| + 1] == name + ":"
    ensures Split(text, ':')[0] == name
  {
    assert text == name + [':'] + text[|name| + 1..];
    SplitFirst(name, text[|name| + 1..], ':');
  }

  /** The name is what comes before the first ':' of the name and its edge list. */
  lemma NameBeforeEdges(name: string, edges: Option<string>)
    requires ':' !in name
    ensures Split(name + EdgeSuffix(edges), ':')[0] == name
  {
    match edges {
      case Some(e) =>
        assert name + EdgeSuffix(edges) == name + [':'] + e;
        SplitFirst(name, e, ':');
      case None =>
        assert name + EdgeSuffix(edges) == name;
        SplitFirst(name, [], ':');
    }
  }

  /** The orientation quote is read off the name and dropped from the fields. */
  lemma FieldsOfName(header: string, fields: string, positive: bool)
    requires HeaderName(header) == fields + (if positive then "" else "'")
    requires fields != [] && fields[|fields| - 1] != '\''
    ensures IsReverse(HeaderName(header)) == !positive
    ensures FieldText(header) == fields
  {
  }

  /** The six fields SPAdes writes, before they are joined by '_'. */
  function HeaderFields(number: nat, length: nat, whole: nat, fraction: string): seq<string>
    requires AllDigits(fraction)
  {
    ["EDGE", NatToString(number), "length", NatToString(length), "cov", DepthToken(whole, fraction)]
  }

  /** None of the six fields holds a '_', a ':' or a quote. */
  lemma HeaderFieldsExclude(number: nat, length: nat, whole: nat, fraction: string)
    requires AllDigits(fraction)
    ensures var fieldList := HeaderFields(number, length, whole, fraction);
            forall i, c :: 0 <= i < 6 && c in "_:'" ==> c !in fieldList[i]
  {
  }

  /** The fields SPAdes writes hold no ':' and no quote, do not end in a quote, and split
      back on '_' into the six fields. */
  lemma FieldTextSplits(number: nat, length: nat, whole: nat, fraction: string)
    requires AllDigits(fraction)
    ensures var fields := HeaderFieldText(number, length, whole, fraction);
            ':' !in fields && fields != [] && fields[|fields| - 1] != '\'' &&
            (IsDigit(fields[|fields| - 1]) || fields[|fields| - 1] == '.') &&
            Split(fields, '_') == HeaderFields(number, length, whole, fraction)
  {
    var fieldList := HeaderFields(number, length, whole, fraction);
    var fields := HeaderFieldText(number, length, whole, fraction);
    assert fields == Join(fieldList, '_');
    HeaderFieldsExclude(number, length, whole, fraction);
    JoinExcludes(fieldList, '_', ':');
    JoinExcludes(fieldList, '_', '\'');
    SplitJoin(fieldList, '_');
    assert fields != [] by {
      SplitCount(fields, '_');
    }
    assert fields[|fields| - 1] in fields;
    var depth := DepthToken(whole, fraction);
    JoinEndsWith(fieldList, '_');
    assert fields[|fields| - 1] == depth[|depth| - 1];
  }

  /** A header whose fields split into six with the number, length and depth in fields 1, 3
      and 5 parses into those values. */
  lemma ParseSixFields(header: string, number: nat, length: nat, whole: nat, fraction: string)
    requires AllDigits(fraction)
    requires Split(FieldText(header), '_') ==
               ["EDGE", NatToString(number), "length", NatToString(length), "cov", DepthToken(whole, fraction)]
    ensures ParseHeader(header) ==
            Ok(Segment(number, length, Decimal(whole, fraction), !IsReverse(HeaderName(header))))
  {
    ParseNatToString(number, number);
    ParseNatToString(length, length);
    DepthTokenRoundTrip(whole, fraction);
  }

  /** A rendered header is the marker, the name (the fields and an orientation quote), the
      edge list, the terminator and the line end. */
  lemma RenderedName(number: nat, length: nat, whole: nat, fraction: string, positive: bool,
                     edges: Option<string>, terminated: bool, lineEnd: string)
    requires AllDigits(fraction)
    ensures RenderHeader(number, length, whole, fraction, positive, edges, terminated, lineEnd) ==
            ">" + (HeaderFieldText(number, length, whole, fraction) + (if positive then "" else "'")) +
            EdgeSuffix(edges) + Terminator(terminated) + lineEnd
  {
  }

  /** Rendering a segment as a header line, with or without the ';', and parsing the line
      gives the segment back. */
  lemma HeaderRoundTrip(number: nat, length: nat, whole: nat, fraction: string, positive: bool,
                        edges: Option<string>, terminated: bool, lineEnd: string)
    requires AllDigits(fraction)
    requires IsBlank(lineEnd)
    ensures ParseHeader(RenderHeader(number, length, whole, fraction, positive, edges, terminated, lineEnd)) ==
            Ok(Segment(number, length, Decimal(whole, fraction), positive))
  {
    var fields := HeaderFieldText(number, length, whole, fraction);
    var quote := if positive then "" else "'";
    var header := RenderHeader(number, length, whole, fraction, positive, edges, terminated, lineEnd);
    FieldTextSplits(number, length, whole, fraction);
    RenderedName(number, length, whole, fraction, positive, edges, terminated, lineEnd);
    var name := fields + quote;
    assert name[|name| - 1] == (if positive then fields[|fields| - 1] else '\'');
    NameOfHeaderLine(name, edges, terminated, lineEnd);
    FieldsOfName(header, fields, positive);
    ParseSixFields(header, number, length, whole, fraction);
  }

  /** `get_number_with_sign()`: the decimal number followed by '+' or '-'. */
  function SignedKey(number: nat, positive: bool): (k: string)
    ensures |k| >= 2 && AllDigits(k[..|k| - 1])
    ensures k[|k| - 1] == (if positive then '+' else '-')
  {
    NatToString(number) + [if positive then '+' else '-']
  }

  function NumberWithSign(s: Segment): string
  {
    SignedKey(s.number, s.positive)
  }

  /** Different segments identities have different keys: the key determines both the number
      and the orientation. */
  lemma SignedKeyInjective(n1: nat, p1: bool, n2: nat, p2: bool)
    ensures SignedKey(n1, p1) == SignedKey(n2, p2) <==> n1 == n2 && p1 == p2
  {
  }

  /** The pairs `(x.get_number_with_sign(), x)` from which `main` builds its dictionary. */
  function KeyedSegments(segs: seq<Segment>): (pairs: seq<(string, Segment)>)
    ensures |pairs| == |segs|
    ensures forall i :: 0 <= i < |segs| ==> pairs[i] == (NumberWithSign(segs[i]), segs[i])
  {
    seq(|segs|, i requires 0 <= i < |segs| => (NumberWithSign(segs[i]), segs[i]))
  }

  /** The dictionary `main` builds: each segment under its signed key, a later segment
      replacing an earlier one with the same key. */
  function Catalog(segs: seq<Segment>): (m: map<string, Segment>)
    ensures forall k :: k in m ==> NumberWithSign(m[k]) == k
    ensures forall i :: 0 <= i < |segs| ==> NumberWithSign(segs[i]) in m
  {
    var pairs := KeyedSegments(segs);
    var m := DictOf(pairs);
    forall k | k in m ensures NumberWithSign(m[k]) == k {
      DictOfLastWins(pairs, k);
    }
    m
  }

  /** What is stored under a key is the last segment of the list with that key. */
  lemma CatalogLastWins(segs: seq<Segment>, k: string)
    requires k in Catalog(segs)
    ensures exists i :: 0 <= i < |segs| && segs[i] == Catalog(segs)[k] &&
                        forall j :: i < j < |segs| ==> NumberWithSign(segs[j]) != k
  {
    DictOfLastWins(KeyedSegments(segs), k);
  }

  /** Every key of the dictionary is the key of the segment stored under it. */
  ghost predicate Consistent(catalog: map<string, Segment>)
  {
    forall k :: k in catalog ==> NumberWithSign(catalog[k]) == k
  }

  /** The lines `load_graph` hands to `GraphSegment`: those that start with '>'. */
  predicate IsHeaderLine(line: string)
  {
    |line| > 0 && line[0] == '>'
  }

  /** `load_graph` on the lines of the graph file: every header line parsed, in file order;
      the first header that does not parse aborts the load. */
  function GraphSegments(lines: seq<string>): (r: Result<seq<Segment>, HeaderError>)
    ensures r.Ok? ==> |r.value| <= |lines|
    ensures r.Ok? ==> forall k :: 0 <= k < |r.value| ==>
              exists line :: line in lines && IsHeaderLine(line) && ParseHeader(line) == Ok(r.value[k])
    ensures r.Err? ==> exists line :: line in lines && IsHeaderLine(line) && ParseHeader(line) == Err(r.error)
  {
    MapAll(Filter(lines, IsHeaderLine), ParseHeader)
  }

  /** Lines that are not headers are passed over, and a header at the end of the file adds
      its segment at the end of the list. */
  lemma GraphSegmentsSnoc(lines: seq<string>, line: string)
    requires GraphSegments(lines).Ok?
    ensures !IsHeaderLine(line) ==> GraphSegments(lines + [line]) == GraphSegments(lines)
    ensures IsHeaderLine(line) && ParseHeader(line).Ok? ==>
              GraphSegments(lines + [line]) == Ok(GraphSegments(lines).value + [ParseHeader(line).value])
    ensures IsHeaderLine(line) && ParseHeader(line).Err? ==>
              GraphSegments(lines + [line]) == Err(ParseHeader(line).error)
  {
    FilterAppend(lines, [line], IsHeaderLine);
    assert [line][..0] == [];
    if IsHeaderLine(line) {
      assert Filter([line], IsHeaderLine) == [line];
      MapAllSnoc(Filter(lines, IsHeaderLine), line, ParseHeader);
    } else {
      assert Filter(lines + [line], IsHeaderLine) == Filter(lines, IsHeaderLine);
    }
  }

  /** The loop of `load_graph`. */
  method LoadGraph(lines: seq<string>) returns (r: Result<seq<Segment>, HeaderError>)
    ensures r == GraphSegments(lines)
  {
    r := CollectParsed(lines, IsHeaderLine, ParseHeader);
  }
}
