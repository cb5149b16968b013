/** The `PLYToSchematic` constructor end to end: read the header, decode the
    binary or ASCII body, then deduplicate, shift and pack the points into
    blocks. Two versions are modelled: `ReadPlyAsWritten` with the two
    failures the code has that evidently were not meant (a negative list
    capacity for an undeclared element, and a diagnostic loop that reads
    five points), and `ReadPly` without them. */
module PlyReader {
  import opened PlyTypes
  import opened Text
  import opened Header
  import opened BinaryBody
  import opened AsciiBody
  import opened PostProcess

  /** The text parsers the reader calls: `Convert.ToInt32` for element
      counts, `float.Parse` for ASCII coordinates (only whether it succeeds
      matters here) and `byte.Parse` for ASCII colour channels. */
  datatype Parsers = Parsers(parseInt: string -> Option<Int32>, isFloat: string -> bool, parseByte: string -> Option<Byte>)

  /** Where lines 499-512 put a vertex: its grid cell after the abs-min
      shift, the scale and the truncation, which depend on every vertex of
      the body. Floating point is not modelled; this is a parameter. */
  type Placement = (seq<Point>, Point) -> Cell

  /** The body a header selects: binary from byte `readCount` of the file,
      ASCII from the lines after `end_header`. A binary body has one vertex
      per declared vertex record; an ASCII body is always read, has no
      faces and one vertex per well-formed line. */
  function ReadBody(h: HeaderRead, lines: seq<string>, bytes: seq<Byte>, parsers: Parsers): (r: Result<DataBody>)
    requires h.consumed <= |lines|
    ensures r.Ok? ==> |r.value.vertices| == |r.value.colors|
    ensures h.header.binary && r.Ok? ==> |r.value.vertices| == Iterations(h.header.vertexCount)
    ensures !h.header.binary ==> r.Ok? && r.value.faces == []
    ensures !h.header.binary ==> |r.value.vertices| == WellFormedCount(lines[h.consumed..], parsers.isFloat, parsers.parseByte)
  {
    AsciiCount(lines[h.consumed..], parsers.isFloat, parsers.parseByte);
    if h.header.binary then ReadDataBodyBinary(h.header, bytes, h.readCount)
    else Ok(ReadDataBodyAscii(lines[h.consumed..], parsers.isFloat, parsers.parseByte))
  }

  /** A binary body is read from byte `readCount` of the file on: neither
      the text lines nor the header bytes before that offset matter. */
  lemma BinaryBodyStartsAtReadCount(h: HeaderRead, lines: seq<string>, lines': seq<string>, bytes: seq<Byte>, bytes': seq<Byte>, parsers: Parsers)
    requires h.consumed <= |lines| && h.consumed <= |lines'| && h.header.binary
    requires AgreeFrom(bytes, bytes', h.readCount)
    ensures ReadBody(h, lines, bytes, parsers) == ReadBody(h, lines', bytes', parsers)
  {
    BodyFrom(h.header, bytes, bytes', h.readCount);
  }

  /** Each decoded vertex as a grid cell with its colour. */
  function Samples(body: DataBody, place: Placement): (s: seq<Sample>)
    requires |body.vertices| == |body.colors|
  {
    seq(|body.vertices|, k requires 0 <= k < |body.vertices| => Sample(place(body.vertices, body.vertices[k]), body.colors[k]))
  }

  /** A non-empty sample list has a cell. */
  lemma CellSetNonEmpty(s: seq<Sample>)
    requires |s| > 0
    ensures |CellSet(s)| > 0
  {
    CellSetMembers(s, s[0].cell);
  }

  /** Lines 497-541 as intended: the minimum over no vertices fails, and
      otherwise there is one block per distinct cell, at distinct positions,
      none below zero on any axis. */
  function Convert(body: DataBody, place: Placement): (r: Result<seq<Block>>)
    requires |body.vertices| == |body.colors|
    ensures r.Err? <==> |body.vertices| == 0
    ensures r.Err? ==> r.error == EmptyPointSet
    ensures r.Ok? ==> |r.value| == |CellSet(Samples(body, place))| > 0
    ensures r.Ok? ==> forall p, q :: 0 <= p < q < |r.value| ==> r.value[p].pos != r.value[q].pos
    ensures r.Ok? ==> forall k, a :: 0 <= k < |r.value| ==> Coordinate(r.value[k].pos, a) >= 0
    ensures r.Ok? ==> var f := FirstOccurrences(Samples(body, place));
                      && |f| > 0 && |r.value| == |f|
                      && forall k :: 0 <= k < |f| ==> r.value[k] == Place(f[k], MinCoordinate(Cells(f)))
  {
    if |body.vertices| == 0 then Err(EmptyPointSet)
    else
      var s := Samples(body, place);
      var kept := Dedup(s);
      DedupSize(s);
      CellSetNonEmpty(s);
      DedupIsFirstOccurrences(s);
      FirstOccurrencesDistinct(s);
      NormaliseKeepsDistinct(kept);
      NormaliseShiftsToOrigin(kept);
      Ok(Normalise(kept))
  }

  /** Lines 497-546 as written: after the blocks are built, lines 543-546
      print the first five points, which fails when fewer than five
      distinct cells remain. */
  function ConvertAsWritten(body: DataBody, place: Placement): (r: Result<seq<Block>>)
    requires |body.vertices| == |body.colors|
    ensures |body.vertices| > 0 && |CellSet(Samples(body, place))| < 5 ==>
              r == Err(ListIndexOutOfRange(|CellSet(Samples(body, place))|))
    ensures r.Ok? ==> r == Convert(body, place)
    ensures Convert(body, place).Ok? && |CellSet(Samples(body, place))| >= 5 ==> r == Convert(body, place)
  {
    var blocks :- Convert(body, place);
    var kept := Dedup(Samples(body, place));
    DedupSize(Samples(body, place));
    if |kept| < 5 then Err(ListIndexOutOfRange(|kept|)) else Ok(blocks)
  }

  /** Everything after the header, as written: each body reader starts with
      `new DataBody(vertexCount, faceCount)`, whose `List` capacities throw
      when a count is negative, and a count the header never declares is -1. */
  function ConstructAsWritten(h: HeaderRead, lines: seq<string>, bytes: seq<Byte>, parsers: Parsers, place: Placement): (r: Result<seq<Block>>)
    requires h.consumed <= |lines|
    ensures h.header.vertexCount < 0 ==> r == Err(NegativeCapacity(h.header.vertexCount))
    ensures h.header.vertexCount >= 0 && h.header.faceCount < 0 ==> r == Err(NegativeCapacity(h.header.faceCount))
    ensures r.Ok? ==> h.header.vertexCount >= 0 && h.header.faceCount >= 0
  {
    if h.header.vertexCount < 0 then Err(NegativeCapacity(h.header.vertexCount))
    else if h.header.faceCount < 0 then Err(NegativeCapacity(h.header.faceCount))
    else
      var body :- ReadBody(h, lines, bytes, parsers);
      ConvertAsWritten(body, place)
  }

  /** Everything after the header, without the two unintended failures: an
      undeclared element just has no entries, and nothing reads past the
      blocks. */
  function Construct(h: HeaderRead, lines: seq<string>, bytes: seq<Byte>, parsers: Parsers, place: Placement): (r: Result<seq<Block>>)
    requires h.consumed <= |lines|
    ensures r.Ok? ==> |r.value| > 0
    ensures r.Err? && ReadBody(h, lines, bytes, parsers).Ok? ==> r == Err(EmptyPointSet)
  {
    var body :- ReadBody(h, lines, bytes, parsers);
    Convert(body, place)
  }

  /** The two versions agree whenever the as-written one succeeds, and also
      whenever both counts are declared and five distinct cells result. */
  lemma ConstructAgrees(h: HeaderRead, lines: seq<string>, bytes: seq<Byte>, parsers: Parsers, place: Placement)
    requires h.consumed <= |lines|
    ensures ConstructAsWritten(h, lines, bytes, parsers, place).Ok? ==>
              ConstructAsWritten(h, lines, bytes, parsers, place) == Construct(h, lines, bytes, parsers, place)
    ensures h.header.vertexCount >= 0 && h.header.faceCount >= 0
            && ReadBody(h, lines, bytes, parsers).Ok?
            && |CellSet(Samples(ReadBody(h, lines, bytes, parsers).value, place))| >= 5
            ==> ConstructAsWritten(h, lines, bytes, parsers, place) == Construct(h, lines, bytes, parsers, place)
  {
  }

  /** The `PLYToSchematic` constructor as written. */
  function ReadPlyAsWritten(lines: seq<string>, bytes: seq<Byte>, parsers: Parsers, place: Placement): (r: Result<seq<Block>>)
    ensures r.Ok? ==> ReadDataHeader(lines, parsers.parseInt).Ok?
    ensures r.Ok? ==> var h := ReadDataHeader(lines, parsers.parseInt).value.header;
                      h.vertexCount >= 0 && h.faceCount >= 0
  {
    var h :- ReadDataHeader(lines, parsers.parseInt);
    ConstructAsWritten(h, lines, bytes, parsers, place)
  }

  /** The constructor as intended. */
  function ReadPly(lines: seq<string>, bytes: seq<Byte>, parsers: Parsers, place: Placement): (r: Result<seq<Block>>)
    ensures r.Ok? ==> ReadDataHeader(lines, parsers.parseInt).Ok?
    ensures r.Ok? ==> |r.value| > 0
  {
    var h :- ReadDataHeader(lines, parsers.parseInt);
    Construct(h, lines, bytes, parsers, place)
  }

  /** The agreement of the two constructors, from the header on. */
  lemma AsWrittenAgrees(lines: seq<string>, bytes: seq<Byte>, parsers: Parsers, place: Placement)
    ensures ReadPlyAsWritten(lines, bytes, parsers, place).Ok? ==>
              ReadPlyAsWritten(lines, bytes, parsers, place) == ReadPly(lines, bytes, parsers, place)
    ensures var hr := ReadDataHeader(lines, parsers.parseInt);
            hr.Ok? && hr.value.header.vertexCount >= 0 && hr.value.header.faceCount >= 0
            && ReadBody(hr.value, lines, bytes, parsers).Ok?
            && |CellSet(Samples(ReadBody(hr.value, lines, bytes, parsers).value, place))| >= 5
            ==> ReadPlyAsWritten(lines, bytes, parsers, place) == ReadPly(lines, bytes, parsers, place)
  {
    var hr := ReadDataHeader(lines, parsers.parseInt);
    if hr.Ok? {
      ConstructAgrees(hr.value, lines, bytes, parsers, place);
    }
  }

  /** An ASCII point cloud: a header that declares no `element face` and a
      body with at least one well-formed line. The code as written rejects
      every such file, since the face count stays -1; the corrected reader
      turns it into blocks. */
  lemma PointCloudWithoutFaces(lines: seq<string>, bytes: seq<Byte>, parsers: Parsers, place: Placement)
    requires ReadDataHeader(lines, parsers.parseInt).Ok?
    requires var h := ReadDataHeader(lines, parsers.parseInt).value;
             !h.header.binary && Undeclared(lines, 2, h.consumed, "face")
    requires var h := ReadDataHeader(lines, parsers.parseInt).value;
             WellFormedCount(lines[h.consumed..], parsers.isFloat, parsers.parseByte) > 0
    ensures ReadPlyAsWritten(lines, bytes, parsers, place).Err?
    ensures ReadPlyAsWritten(lines, bytes, parsers, place).error.NegativeCapacity?
    ensures ReadPly(lines, bytes, parsers, place).Ok?
  {
    var h := ReadDataHeader(lines, parsers.parseInt).value;
    HeaderDeclarations(lines, parsers.parseInt);
    AsciiCount(lines[h.consumed..], parsers.isFloat, parsers.parseByte);
  }

  /** A body whose points fall on fewer than five distinct cells: the
      blocks are built, then the diagnostic loop fails; the corrected
      reader returns the blocks. */
  lemma FewCellsFail(body: DataBody, place: Placement)
    requires |body.vertices| == |body.colors| > 0
    requires |CellSet(Samples(body, place))| < 5
    ensures ConvertAsWritten(body, place).Err?
    ensures Convert(body, place).Ok? && |Convert(body, place).value| == |CellSet(Samples(body, place))|
  {
  }

  // ---------------------------------------------------------------------
  // The header's byte count locates the binary body
  // ---------------------------------------------------------------------

  /** Every character of every line is 7-bit ASCII. */
  predicate AsciiLines(lines: seq<string>) {
    forall k, i :: 0 <= k < |lines| && 0 <= i < |lines[k]| ==> lines[k][i] < 128 as char
  }

  /** The bytes of ASCII lines, each followed by a line feed. */
  function EncodeLines(lines: seq<string>): (bytes: seq<Byte>)
    requires AsciiLines(lines)
  {
    if |lines| == 0 then []
    else
      assert AsciiLines(lines[1..]) by {
        forall k, i | 0 <= k < |lines| - 1 && 0 <= i < |lines[1..][k]|
          ensures lines[1..][k][i] < 128 as char
        {
          assert lines[1..][k] == lines[k + 1];
        }
      }
      seq(|lines[0]|, i requires 0 <= i < |lines[0]| => lines[0][i] as int) + [10] + EncodeLines(lines[1..])
  }

  /** Counting one byte per character and one per line end is the length
      of the lines' encoding when every character is ASCII. */
  lemma {:induction false} LineBytesAreEncodedLength(lines: seq<string>)
    requires AsciiLines(lines)
    ensures |EncodeLines(lines)| == LineBytes(lines)
    decreases |lines|
  {
    if |lines| > 0 {
      assert AsciiLines(lines[1..]) by {
        forall k, i | 0 <= k < |lines| - 1 && 0 <= i < |lines[1..][k]|
          ensures lines[1..][k][i] < 128 as char
        {
          assert lines[1..][k] == lines[k + 1];
        }
      }
      LineBytesAreEncodedLength(lines[1..]);
    }
  }

  /** For ASCII header lines ended by single line feeds, `readCount` is the
      number of bytes the header occupies, so the binary reader starts at
      the first byte after `end_header`. */
  lemma BodyStartsAtReadCount(lines: seq<string>, parseInt: string -> Option<Int32>)
    requires ReadDataHeader(lines, parseInt).Ok?
    requires var c := ReadDataHeader(lines, parseInt).value.consumed;
             AsciiLines(lines[..c])
    ensures var h := ReadDataHeader(lines, parseInt).value;
            h.readCount == |EncodeLines(lines[..h.consumed])|
  {
    var h := ReadDataHeader(lines, parseInt).value;
    LineBytesAreEncodedLength(lines[..h.consumed]);
  }
}
