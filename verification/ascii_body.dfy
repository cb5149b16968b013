/** The ASCII body decoder: every line after the header is split on single
    spaces; a line whose tokens 0-2 parse as floats and tokens 6-8 as bytes
    becomes one coloured point, and every other line is skipped. Decoding
    never fails and never produces faces. */
module AsciiBody {
  import opened PlyTypes
  import opened Text

  /** What one line contributes, given its space-separated fields. Lines of
      seven or eight fields pass the length test but fail on `fields[7]` or
      `fields[8]`; that failure is caught, so they are skipped like any other
      malformed line. */
  function ParseRecord(fields: seq<string>, isFloat: string -> bool, parseByte: string -> Option<Byte>): (rec: Option<(Point, Rgb)>)
    ensures rec.Some? <==>
              |fields| >= 9 && isFloat(fields[0]) && isFloat(fields[1]) && isFloat(fields[2])
              && parseByte(fields[6]).Some? && parseByte(fields[7]).Some? && parseByte(fields[8]).Some?
    ensures rec.Some? ==> rec.value.0 == Point(Text(fields[0]), Text(fields[1]), Text(fields[2]))
    ensures rec.Some? ==> rec.value.1 == Rgb(parseByte(fields[6]).value, parseByte(fields[7]).value, parseByte(fields[8]).value)
  {
    if |fields| <= 6 then None
    else if !(isFloat(fields[0]) && isFloat(fields[1]) && isFloat(fields[2])) then None
    else if parseByte(fields[6]).None? then None
    else if |fields| == 7 || parseByte(fields[7]).None? then None
    else if |fields| == 8 || parseByte(fields[8]).None? then None
    else
      Some((Point(Text(fields[0]), Text(fields[1]), Text(fields[2])),
            Rgb(parseByte(fields[6]).value, parseByte(fields[7]).value, parseByte(fields[8]).value)))
  }

  /** The record a body line yields, if it is well formed. */
  function LineRecord(line: string, isFloat: string -> bool, parseByte: string -> Option<Byte>): Option<(Point, Rgb)> {
    ParseRecord(Fields(line), isFloat, parseByte)
  }

  /** The records of the lines, in order, given what each line yields: the
      `while (ReadLine() != null)` loop of the decoder. */
  function Collect(lines: seq<string>, record: string -> Option<(Point, Rgb)>): (body: DataBody)
    ensures body.faces == []
    ensures |body.vertices| == |body.colors| <= |lines|
  {
    if |lines| == 0 then DataBody([], [], [])
    else
      var rest := Collect(lines[1..], record);
      match record(lines[0])
      case Some(rec) => DataBody([rec.0] + rest.vertices, [rec.1] + rest.colors, [])
      case None => rest
  }

  /** Number of lines that yield a record. */
  function Yielding(lines: seq<string>, record: string -> Option<(Point, Rgb)>): nat {
    if |lines| == 0 then 0
    else (if record(lines[0]).Some? then 1 else 0) + Yielding(lines[1..], record)
  }

  lemma {:induction false} CollectAppend(a: seq<string>, b: seq<string>, record: string -> Option<(Point, Rgb)>)
    ensures Collect(a + b, record).vertices == Collect(a, record).vertices + Collect(b, record).vertices
    ensures Collect(a + b, record).colors == Collect(a, record).colors + Collect(b, record).colors
    decreases |a|
  {
    if |a| == 0 {
      assert a + b == b;
    } else {
      assert (a + b)[0] == a[0];
      assert (a + b)[1..] == a[1..] + b;
      CollectAppend(a[1..], b, record);
      var tail, back := Collect(a[1..], record), Collect(b, record);
      match record(a[0])
      case Some(rec) =>
        assert [rec.0] + (tail.vertices + back.vertices) == ([rec.0] + tail.vertices) + back.vertices;
        assert [rec.1] + (tail.colors + back.colors) == ([rec.1] + tail.colors) + back.colors;
      case None =>
    }
  }

  lemma {:induction false} CollectCount(lines: seq<string>, record: string -> Option<(Point, Rgb)>)
    ensures |Collect(lines, record).vertices| == Yielding(lines, record)
    ensures |Collect(lines, record).vertices| == |lines| <==> forall k :: 0 <= k < |lines| ==> record(lines[k]).Some?
    decreases |lines|
  {
    if |lines| > 0 {
      CollectCount(lines[1..], record);
      if forall k :: 0 <= k < |lines| ==> record(lines[k]).Some? {
        forall k | 0 <= k < |lines| - 1
          ensures record(lines[1..][k]).Some?
        {
          assert lines[1..][k] == lines[k + 1];
        }
      } else if record(lines[0]).Some? {
        var k :| 0 <= k < |lines| && record(lines[k]).None?;
        assert lines[1..][k - 1] == lines[k];
      }
    }
  }

  /** What each body line yields under the given parsers. */
  function RecordOf(isFloat: string -> bool, parseByte: string -> Option<Byte>): string -> Option<(Point, Rgb)> {
    line => LineRecord(line, isFloat, parseByte)
  }

  /** Decodes the body lines in order; never fails and never yields faces. */
  function ReadDataBodyAscii(lines: seq<string>, isFloat: string -> bool, parseByte: string -> Option<Byte>): (body: DataBody)
    ensures body.faces == []
    ensures |body.vertices| == |body.colors| <= |lines|
  {
    Collect(lines, RecordOf(isFloat, parseByte))
  }

  /** A single line yields exactly its record, or nothing. */
  lemma OneLine(line: string, isFloat: string -> bool, parseByte: string -> Option<Byte>)
    ensures LineRecord(line, isFloat, parseByte).Some? ==>
              var rec := LineRecord(line, isFloat, parseByte).value;
              ReadDataBodyAscii([line], isFloat, parseByte) == DataBody([rec.0], [rec.1], [])
    ensures LineRecord(line, isFloat, parseByte).None? ==>
              ReadDataBodyAscii([line], isFloat, parseByte) == DataBody([], [], [])
  {
    assert [line][1..] == [];
  }

  /** Decoding is line by line: the points of a concatenation are the points
      of each part, in order. With `OneLine` this pins the decoder down. */
  lemma AsciiAppend(a: seq<string>, b: seq<string>, isFloat: string -> bool, parseByte: string -> Option<Byte>)
    ensures ReadDataBodyAscii(a + b, isFloat, parseByte).vertices
            == ReadDataBodyAscii(a, isFloat, parseByte).vertices + ReadDataBodyAscii(b, isFloat, parseByte).vertices
    ensures ReadDataBodyAscii(a + b, isFloat, parseByte).colors
            == ReadDataBodyAscii(a, isFloat, parseByte).colors + ReadDataBodyAscii(b, isFloat, parseByte).colors
  {
    CollectAppend(a, b, RecordOf(isFloat, parseByte));
  }

  /** Number of body lines that yield a record. */
  function WellFormedCount(lines: seq<string>, isFloat: string -> bool, parseByte: string -> Option<Byte>): nat {
    Yielding(lines, RecordOf(isFloat, parseByte))
  }

  /** One point per well-formed line; so every line gives a point exactly
      when every line is well formed. */
  lemma AsciiCount(lines: seq<string>, isFloat: string -> bool, parseByte: string -> Option<Byte>)
    ensures |ReadDataBodyAscii(lines, isFloat, parseByte).vertices| == WellFormedCount(lines, isFloat, parseByte)
    ensures |ReadDataBodyAscii(lines, isFloat, parseByte).vertices| == |lines|
            <==> forall k :: 0 <= k < |lines| ==> LineRecord(lines[k], isFloat, parseByte).Some?
  {
    CollectCount(lines, RecordOf(isFloat, parseByte));
  }

  /** Writing a record's fields joined by single spaces and decoding the line
      gives the record back: coordinates as their tokens, colours as the
      parsed bytes of fields 6-8. Fields 3-5 (normals, say) are ignored. */
  lemma LineRoundTrip(fields: seq<string>, isFloat: string -> bool, parseByte: string -> Option<Byte>)
    requires |fields| >= 9
    requires forall k :: 0 <= k < |fields| ==> Unbroken(fields[k], IsSpace)
    requires isFloat(fields[0]) && isFloat(fields[1]) && isFloat(fields[2])
    requires parseByte(fields[6]).Some? && parseByte(fields[7]).Some? && parseByte(fields[8]).Some?
    ensures ReadDataBodyAscii([Join(fields, ' ')], isFloat, parseByte)
            == DataBody([Point(Text(fields[0]), Text(fields[1]), Text(fields[2]))],
                        [Rgb(parseByte(fields[6]).value, parseByte(fields[7]).value, parseByte(fields[8]).value)],
                        [])
  {
    SplitJoin(fields, IsSpace, ' ');
    OneLine(Join(fields, ' '), isFloat, parseByte);
  }
}
