/** The binary little-endian body decoder (`ReadDataBodyBinary`): vertex
    records laid out as the schema declares, then a run of 32-bit words
    that the reader groups into count-prefixed faces. */
module BinaryBody {
  import opened PlyTypes

  /** The running values the record loop writes into. They are declared
      once before the first record and never reset, so a channel a record
      does not mention keeps its previous value. */
  datatype Accumulator = Accumulator(x: Coord, y: Coord, z: Coord, r: Byte, g: Byte, b: Byte, a: Byte)

  const Initial: Accumulator := Accumulator(Zero, Zero, Zero, 255, 255, 255, 255)

  /** Accumulator and cursor after some bytes were consumed. */
  datatype Step = Step(acc: Accumulator, pos: nat)

  /** The points and colours of a run of records, with the state after it. */
  datatype VertexRun = VertexRun(points: seq<Point>, colors: seq<Rgb>, acc: Accumulator, pos: nat)

  /** The faces completed by a run of 32-bit words, with the cursor after it. */
  datatype FaceRun = FaceRun(faces: seq<seq<int>>, pos: nat)

  /** The face loop's variables: the array being filled, its announced
      length, how many indices it holds, and whether the next word is a
      count prefix. */
  datatype FaceState = FaceState(f: seq<int>, n: int, counter: nat, flag: bool)

  const FaceStart: FaceState := FaceState([], 0, 0, true)

  /** Where the face loop stands between two reads. */
  datatype FaceCursor = FaceCursor(st: FaceState, faces: seq<seq<int>>)

  /** `w` bytes at the cursor, or end of stream. */
  function Take(bytes: seq<Byte>, pos: nat, w: nat): (r: Result<seq<Byte>>)
    ensures r.Ok? <==> pos + w <= |bytes|
    ensures r.Ok? ==> |r.value| == w && forall k :: 0 <= k < w ==> r.value[k] == bytes[pos + k]
  {
    if pos + w <= |bytes| then Ok(bytes[pos..pos + w]) else Err(EndOfStream(pos))
  }

  /** `ReadUInt16`: two bytes, least significant first. */
  function UInt16(raw: seq<Byte>): nat
    requires |raw| == 2
  {
    raw[0] as int + 256 * raw[1] as int
  }

  /** `(byte)(v >> 8)`: shift right by eight, keep the low eight bits. */
  function HighByte(v: nat): Byte {
    (v / 256) % 256
  }

  /** A 16-bit colour channel keeps the second (most significant) byte. */
  lemma HighByteOfUInt16(raw: seq<Byte>)
    requires |raw| == 2
    ensures HighByte(UInt16(raw)) == raw[1]
  {
  }

  /** `ReadInt32` at the cursor: four bytes, least significant first, two's complement. */
  function ReadInt32(bytes: seq<Byte>, pos: nat): Int32
    requires pos + 4 <= |bytes|
  {
    var u := bytes[pos] as int + 256 * bytes[pos + 1] as int + 0x1_0000 * bytes[pos + 2] as int + 0x100_0000 * bytes[pos + 3] as int;
    if u < 0x8000_0000 then u else u - 0x1_0000_0000
  }

  /** Little-endian two's complement bytes of a 32-bit integer. */
  function EncodeInt32(v: Int32): (raw: seq<Byte>)
    ensures |raw| == 4
  {
    var u := if v >= 0 then v else v + 0x1_0000_0000;
    var q1 := u / 256;
    var q2 := q1 / 256;
    [u % 256, q1 % 256, q2 % 256, q2 / 256]
  }

  /** An encoded integer reads back as itself, wherever it sits in the stream. */
  lemma Int32RoundTrip(prefix: seq<Byte>, v: Int32, trailing: seq<Byte>)
    ensures ReadInt32(prefix + EncodeInt32(v) + trailing, |prefix|) == v
  {
    var u := if v >= 0 then v else v + 0x1_0000_0000;
    var q1 := u / 256;
    var q2 := q1 / 256;
    assert u == 256 * q1 + u % 256;
    assert q1 == 256 * q2 + q1 % 256;
    assert q2 == 256 * (q2 / 256) + q2 % 256;
    var bytes := prefix + EncodeInt32(v) + trailing;
    var k := |prefix|;
    assert bytes[k] == u % 256 && bytes[k + 1] == q1 % 256 && bytes[k + 2] == q2 % 256 && bytes[k + 3] == q2 / 256;
  }

  /** Whether a property only moves the stream position (`Position += w`)
      instead of reading: the wider fillers, and a list property's
      placeholder, which occupies nothing. */
  predicate Seeks(p: DataProperty) {
    p in {Data16, Data32, Data64, Invalid}
  }

  /** The accumulator after property `p` was read as the bytes `v`: a
      colour channel takes the byte (the high byte of a 16-bit value), an
      axis keeps the raw chunk, a one-byte filler changes nothing. */
  function Store(acc: Accumulator, p: DataProperty, v: seq<Byte>): (after: Accumulator)
    requires !Seeks(p) && |v| == PropertySize(p)
    ensures FamilyOf(p) != Red ==> after.r == acc.r
    ensures FamilyOf(p) != Green ==> after.g == acc.g
    ensures FamilyOf(p) != Blue ==> after.b == acc.b
    ensures FamilyOf(p) != AxisX ==> after.x == acc.x
    ensures FamilyOf(p) != AxisY ==> after.y == acc.y
    ensures FamilyOf(p) != AxisZ ==> after.z == acc.z
    ensures FamilyOf(p) != Alpha ==> after.a == acc.a
    ensures p == R8 ==> after.r == v[0]
    ensures p == G8 ==> after.g == v[0]
    ensures p == B8 ==> after.b == v[0]
    ensures p == A8 ==> after.a == v[0]
    ensures p == R16 ==> after.r == v[1]
    ensures p == G16 ==> after.g == v[1]
    ensures p == B16 ==> after.b == v[1]
    ensures p == A16 ==> after.a == v[1]
    ensures p == SingleX ==> after.x == Single(v)
    ensures p == SingleY ==> after.y == Single(v)
    ensures p == SingleZ ==> after.z == Single(v)
    ensures p == DoubleX ==> after.x == Double(v)
    ensures p == DoubleY ==> after.y == Double(v)
    ensures p == DoubleZ ==> after.z == Double(v)
    ensures p == Data8 ==> after == acc
  {
    match p
    case R8 => acc.(r := v[0])
    case G8 => acc.(g := v[0])
    case B8 => acc.(b := v[0])
    case A8 => acc.(a := v[0])
    case R16 => acc.(r := HighByte(UInt16(v)))
    case G16 => acc.(g := HighByte(UInt16(v)))
    case B16 => acc.(b := HighByte(UInt16(v)))
    case A16 => acc.(a := HighByte(UInt16(v)))
    case SingleX => acc.(x := Single(v))
    case SingleY => acc.(y := Single(v))
    case SingleZ => acc.(z := Single(v))
    case DoubleX => acc.(x := Double(v))
    case DoubleY => acc.(y := Double(v))
    case DoubleZ => acc.(z := Double(v))
    case Data8 => acc
  }

  /** Reads one property of a record at the cursor (lines 338-416). Colour,
      position and one-byte filler reads fail at the end of the stream; the
      wider fillers only move the stream position, which may pass the end
      unchecked. */
  function ReadProperty(bytes: seq<Byte>, pos: nat, p: DataProperty, acc: Accumulator): (r: Result<Step>)
    ensures r.Ok? ==> r.value.pos == pos + PropertySize(p)
    ensures !Seeks(p) ==> (r.Ok? <==> pos + PropertySize(p) <= |bytes|)
    ensures Seeks(p) ==> r.Ok?
    ensures r.Ok? && p == R16 ==> r.value.acc.r == bytes[pos + 1]
    ensures r.Ok? && p == G16 ==> r.value.acc.g == bytes[pos + 1]
    ensures r.Ok? && p == B16 ==> r.value.acc.b == bytes[pos + 1]
    ensures r.Ok? && p == A16 ==> r.value.acc.a == bytes[pos + 1]
    ensures r.Ok? && FamilyOf(p) != Red ==> r.value.acc.r == acc.r
    ensures r.Ok? && FamilyOf(p) != Green ==> r.value.acc.g == acc.g
    ensures r.Ok? && FamilyOf(p) != Blue ==> r.value.acc.b == acc.b
    ensures r.Ok? && FamilyOf(p) != AxisX ==> r.value.acc.x == acc.x
    ensures r.Ok? && FamilyOf(p) != AxisY ==> r.value.acc.y == acc.y
    ensures r.Ok? && FamilyOf(p) != AxisZ ==> r.value.acc.z == acc.z
  {
    if Seeks(p) then Ok(Step(acc, pos + PropertySize(p)))
    else
      var v :- Take(bytes, pos, PropertySize(p));
      Ok(Step(Store(acc, p, v), pos + PropertySize(p)))
  }

  /** The value each kind of property stores, in terms of the stream: an
      8-bit channel takes the byte at the cursor, an axis the raw four or
      eight bytes there, alpha is kept apart from the other channels, and
      fillers and list placeholders store nothing. */
  lemma PropertyValues(bytes: seq<Byte>, pos: nat, p: DataProperty, acc: Accumulator)
    ensures var r := ReadProperty(bytes, pos, p, acc);
            && (r.Ok? && FamilyOf(p) != Alpha ==> r.value.acc.a == acc.a)
            && (r.Ok? && p == R8 ==> r.value.acc.r == bytes[pos])
            && (r.Ok? && p == G8 ==> r.value.acc.g == bytes[pos])
            && (r.Ok? && p == B8 ==> r.value.acc.b == bytes[pos])
            && (r.Ok? && p == A8 ==> r.value.acc.a == bytes[pos])
            && (r.Ok? && p == SingleX ==> r.value.acc.x == Single(bytes[pos..pos + 4]))
            && (r.Ok? && p == SingleY ==> r.value.acc.y == Single(bytes[pos..pos + 4]))
            && (r.Ok? && p == SingleZ ==> r.value.acc.z == Single(bytes[pos..pos + 4]))
            && (r.Ok? && p == DoubleX ==> r.value.acc.x == Double(bytes[pos..pos + 8]))
            && (r.Ok? && p == DoubleY ==> r.value.acc.y == Double(bytes[pos..pos + 8]))
            && (r.Ok? && p == DoubleZ ==> r.value.acc.z == Double(bytes[pos..pos + 8]))
            && (r.Ok? && (Seeks(p) || p == Data8) ==> r.value.acc == acc)
  {
  }

  /** Bytes one vertex record occupies: the widths of its properties. */
  function RecordWidth(props: seq<DataProperty>): nat {
    if |props| == 0 then 0 else PropertySize(props[0]) + RecordWidth(props[1..])
  }

  /** Whether some property of the schema feeds the given channel or axis. */
  predicate Mentions(props: seq<DataProperty>, f: Family) {
    exists k :: 0 <= k < |props| && FamilyOf(props[k]) == f
  }

  /** No property of the schema is a multi-byte filler, so every byte of a
      record is consumed by a read that checks for the end of the stream. */
  predicate AllChecked(props: seq<DataProperty>) {
    forall k :: 0 <= k < |props| ==> props[k] !in {Data16, Data32, Data64}
  }

  /** One vertex record: the schema's properties in declared order. */
  function ReadRecord(bytes: seq<Byte>, pos: nat, props: seq<DataProperty>, acc: Accumulator): (r: Result<Step>)
    ensures r.Ok? ==> r.value.pos == pos + RecordWidth(props)
    decreases |props|
  {
    if |props| == 0 then Ok(Step(acc, pos))
    else
      var s :- ReadProperty(bytes, pos, props[0], acc);
      ReadRecord(bytes, s.pos, props[1..], s.acc)
  }

  /** A record is read whenever its bytes are there; when no property is a
      multi-byte filler, only then. */
  lemma {:induction false} RecordCompleteness(bytes: seq<Byte>, pos: nat, props: seq<DataProperty>, acc: Accumulator)
    ensures var r := ReadRecord(bytes, pos, props, acc);
            && (pos + RecordWidth(props) <= |bytes| ==> r.Ok?)
            && (AllChecked(props) && pos <= |bytes| ==> (r.Ok? <==> pos + RecordWidth(props) <= |bytes|))
    decreases |props|
  {
    if |props| > 0 {
      var s := ReadProperty(bytes, pos, props[0], acc);
      if s.Ok? {
        RecordCompleteness(bytes, s.value.pos, props[1..], s.value.acc);
        assert AllChecked(props) ==> AllChecked(props[1..]) by {
          if AllChecked(props) {
            forall k | 0 <= k < |props| - 1 ensures props[1..][k] !in {Data16, Data32, Data64} {
              assert props[1..][k] == props[k + 1];
            }
          }
        }
      }
    }
  }

  /** The value of colour channel `f` (red, green or blue). */
  function ChannelOf(c: Rgb, f: Family): Byte
    requires f in {Red, Green, Blue}
  {
    if f == Red then c.r else if f == Green then c.g else c.b
  }

  /** A colour channel the schema does not mention keeps its value across a record. */
  lemma {:induction false} RecordKeepsUnmentioned(bytes: seq<Byte>, pos: nat, props: seq<DataProperty>, acc: Accumulator, f: Family)
    requires f in {Red, Green, Blue}
    ensures var r := ReadRecord(bytes, pos, props, acc);
            r.Ok? && !Mentions(props, f) ==> ChannelOf(ColorOf(r.value.acc), f) == ChannelOf(ColorOf(acc), f)
    decreases |props|
  {
    if |props| > 0 {
      var s := ReadProperty(bytes, pos, props[0], acc);
      if s.Ok? {
        RecordKeepsUnmentioned(bytes, s.value.pos, props[1..], s.value.acc, f);
        MentionsTail(props, f);
      }
    }
  }

  lemma MentionsTail(props: seq<DataProperty>, f: Family)
    requires |props| > 0
    ensures Mentions(props[1..], f) ==> Mentions(props, f)
  {
    if Mentions(props[1..], f) {
      var k :| 0 <= k < |props[1..]| && FamilyOf(props[1..][k]) == f;
      assert FamilyOf(props[k + 1]) == f;
    }
  }

  function PointOf(acc: Accumulator): Point {
    Point(acc.x, acc.y, acc.z)
  }

  function ColorOf(acc: Accumulator): Rgb {
    Rgb(acc.r, acc.g, acc.b)
  }

  /** Bytes `count` records of `w` bytes each occupy. */
  function RunWidth(count: nat, w: nat): nat {
    if count == 0 then 0 else w + RunWidth(count - 1, w)
  }

  lemma {:induction false} RunWidthIsProduct(count: nat, w: nat)
    ensures RunWidth(count, w) == count * w
  {
    if count > 0 {
      RunWidthIsProduct(count - 1, w);
    }
  }

  /** `count` vertex records, each followed by `AddPoint` of the running values. */
  function ReadVertices(bytes: seq<Byte>, pos: nat, count: nat, props: seq<DataProperty>, acc: Accumulator): (r: Result<VertexRun>)
    ensures r.Ok? ==> |r.value.points| == count && |r.value.colors| == count
    ensures r.Ok? ==> r.value.pos == pos + RunWidth(count, RecordWidth(props))
    ensures r.Ok? ==> r.value.pos == pos + count * RecordWidth(props)
    decreases count
  {
    RunWidthIsProduct(count, RecordWidth(props));
    if count == 0 then Ok(VertexRun([], [], acc, pos))
    else
      var s :- ReadRecord(bytes, pos, props, acc);
      var rest :- ReadVertices(bytes, s.pos, count - 1, props, s.acc);
      Ok(VertexRun([PointOf(s.acc)] + rest.points, [ColorOf(s.acc)] + rest.colors, rest.acc, rest.pos))
  }

  /** `n` records read one after another from `pos`, without collecting
      anything: the accumulator after record `n` is what the vertex loop
      appends as its `n`-th point and colour. */
  function Records(bytes: seq<Byte>, pos: nat, n: nat, props: seq<DataProperty>, acc: Accumulator): Result<Step>
    decreases n
  {
    if n == 0 then Ok(Step(acc, pos))
    else
      var s :- Records(bytes, pos, n - 1, props, acc);
      ReadRecord(bytes, s.pos, props, s.acc)
  }

  /** Reading `n + 1` records is reading the first, then `n` more from where it ended. */
  lemma {:induction false} RecordsAfterFirst(bytes: seq<Byte>, pos: nat, n: nat, props: seq<DataProperty>, acc: Accumulator)
    ensures var first := ReadRecord(bytes, pos, props, acc);
            && (first.Err? ==> Records(bytes, pos, n + 1, props, acc).Err?)
            && (first.Ok? ==> Records(bytes, pos, n + 1, props, acc) == Records(bytes, first.value.pos, n, props, first.value.acc))
    decreases n
  {
    if n > 0 {
      RecordsAfterFirst(bytes, pos, n - 1, props, acc);
    }
  }

  /** The vertex loop's `k`-th point and colour are the running values
      after `k + 1` records: a channel a record does not set carries over
      from the records before it. The loop succeeds exactly when all its
      records can be read. */
  lemma {:induction false} VerticesAreRunningValues(bytes: seq<Byte>, pos: nat, count: nat, props: seq<DataProperty>, acc: Accumulator)
    ensures var r := ReadVertices(bytes, pos, count, props, acc);
            && (r.Ok? <==> Records(bytes, pos, count, props, acc).Ok?)
            && (r.Ok? ==> r.value.acc == Records(bytes, pos, count, props, acc).value.acc)
            && (r.Ok? ==> forall k :: 0 <= k < count ==> RunningAt(r.value, k, bytes, pos, props, acc))
    decreases count
  {
    if count > 0 {
      VerticesFirst(bytes, pos, count, props, acc);
      RecordsAfterFirst(bytes, pos, count - 1, props, acc);
      var first := ReadRecord(bytes, pos, props, acc);
      if first.Ok? {
        var s := first.value;
        VerticesAreRunningValues(bytes, s.pos, count - 1, props, s.acc);
        var r := ReadVertices(bytes, pos, count, props, acc);
        if r.Ok? {
          RunningStep(bytes, pos, props, acc, s, r.value, ReadVertices(bytes, s.pos, count - 1, props, s.acc).value);
        }
      }
    }
  }

  /** One step of the vertex loop: its first record, then the rest. */
  lemma VerticesFirst(bytes: seq<Byte>, pos: nat, count: nat, props: seq<DataProperty>, acc: Accumulator)
    requires count > 0
    ensures var r, first := ReadVertices(bytes, pos, count, props, acc), ReadRecord(bytes, pos, props, acc);
            && (first.Err? ==> r.Err?)
            && (first.Ok? ==>
                  var tail := ReadVertices(bytes, first.value.pos, count - 1, props, first.value.acc);
                  && (r.Ok? <==> tail.Ok?)
                  && (r.Ok? ==> r.value == VertexRun([PointOf(first.value.acc)] + tail.value.points,
                                                     [ColorOf(first.value.acc)] + tail.value.colors,
                                                     tail.value.acc, tail.value.pos)))
  {
  }

  /** If the rest of a run holds the running values from the end of the
      first record on, the whole run holds them from its start. */
  lemma RunningStep(bytes: seq<Byte>, pos: nat, props: seq<DataProperty>, acc: Accumulator, s: Step, run: VertexRun, rest: VertexRun)
    requires ReadRecord(bytes, pos, props, acc) == Ok(s)
    requires run.points == [PointOf(s.acc)] + rest.points && run.colors == [ColorOf(s.acc)] + rest.colors
    requires forall j :: 0 <= j < |rest.points| ==> RunningAt(rest, j, bytes, s.pos, props, s.acc)
    ensures forall k :: 0 <= k < |run.points| ==> RunningAt(run, k, bytes, pos, props, acc)
  {
    forall k | 0 <= k < |run.points|
      ensures RunningAt(run, k, bytes, pos, props, acc)
    {
      if k > 0 {
        RunningAtNext(bytes, pos, props, acc, s, run, rest, k);
      } else {
        RecordsAfterFirst(bytes, pos, 0, props, acc);
      }
    }
  }

  lemma RunningAtNext(bytes: seq<Byte>, pos: nat, props: seq<DataProperty>, acc: Accumulator, s: Step, run: VertexRun, rest: VertexRun, k: nat)
    requires ReadRecord(bytes, pos, props, acc) == Ok(s)
    requires run.points == [PointOf(s.acc)] + rest.points && run.colors == [ColorOf(s.acc)] + rest.colors
    requires 0 < k < |run.points| && RunningAt(rest, k - 1, bytes, s.pos, props, s.acc)
    ensures RunningAt(run, k, bytes, pos, props, acc)
  {
    RecordsAfterFirst(bytes, pos, k, props, acc);
    assert run.points[k] == rest.points[k - 1] && run.colors[k] == rest.colors[k - 1];
  }

  /** Point and colour `k` of a run are the running values after `k + 1` records. */
  ghost predicate RunningAt(run: VertexRun, k: nat, bytes: seq<Byte>, pos: nat, props: seq<DataProperty>, acc: Accumulator) {
    var s := Records(bytes, pos, k + 1, props, acc);
    && k < |run.points| && k < |run.colors| && s.Ok?
    && run.points[k] == PointOf(s.value.acc)
    && run.colors[k] == ColorOf(s.value.acc)
  }

  /** The records are read whenever their bytes are there; when no property
      is a multi-byte filler, only then. */
  lemma {:induction false} VerticesCompleteness(bytes: seq<Byte>, pos: nat, count: nat, props: seq<DataProperty>, acc: Accumulator)
    ensures var r := ReadVertices(bytes, pos, count, props, acc);
            && (pos + RunWidth(count, RecordWidth(props)) <= |bytes| ==> r.Ok?)
            && (AllChecked(props) && pos <= |bytes| ==> (r.Ok? <==> pos + RunWidth(count, RecordWidth(props)) <= |bytes|))
    decreases count
  {
    if count > 0 {
      RecordCompleteness(bytes, pos, props, acc);
      var s := ReadRecord(bytes, pos, props, acc);
      if s.Ok? {
        VerticesCompleteness(bytes, s.value.pos, count - 1, props, s.value.acc);
      }
    }
  }

  /** A colour channel no property of the schema feeds keeps the value the
      reader started with in every decoded colour. */
  lemma {:induction false} UnmentionedChannelKept(bytes: seq<Byte>, pos: nat, count: nat, props: seq<DataProperty>, acc: Accumulator, f: Family)
    requires f in {Red, Green, Blue}
    ensures var r := ReadVertices(bytes, pos, count, props, acc);
            r.Ok? && !Mentions(props, f) ==> forall k :: 0 <= k < count ==> ChannelOf(r.value.colors[k], f) == ChannelOf(ColorOf(acc), f)
    decreases count
  {
    if count > 0 {
      RecordKeepsUnmentioned(bytes, pos, props, acc, f);
      var s := ReadRecord(bytes, pos, props, acc);
      if s.Ok? {
        UnmentionedChannelKept(bytes, s.value.pos, count - 1, props, s.value.acc, f);
      }
    }
  }

  /** The usual point-cloud layout: float x, y and z, then uchar red,
      green and blue. */
  const PointCloudSchema: seq<DataProperty> := [SingleX, SingleY, SingleZ, R8, G8, B8]

  /** A vertex as a writer has it: the raw bytes of its three floats and its colour. */
  datatype Vertex = Vertex(x: seq<Byte>, y: seq<Byte>, z: seq<Byte>, color: Rgb)

  predicate WritableVertex(v: Vertex) {
    |v.x| == 4 && |v.y| == 4 && |v.z| == 4
  }

  /** A vertex laid out under `PointCloudSchema`: fifteen bytes. */
  function EncodeVertex(v: Vertex): (raw: seq<Byte>)
    requires WritableVertex(v)
    ensures |raw| == 15
  {
    v.x + v.y + v.z + [v.color.r, v.color.g, v.color.b]
  }

  /** The point a vertex's floats stand for. */
  function PointOfVertex(v: Vertex): Point {
    Point(Single(v.x), Single(v.y), Single(v.z))
  }

  /** A laid-out vertex reads back as its point and colour, whatever the
      running values were. */
  lemma RecordRoundTrip(bytes: seq<Byte>, pos: nat, v: Vertex, acc: Accumulator)
    requires WritableVertex(v) && pos + 15 <= |bytes| && bytes[pos..pos + 15] == EncodeVertex(v)
    ensures var r := ReadRecord(bytes, pos, PointCloudSchema, acc);
            && r.Ok? && r.value.pos == pos + 15
            && PointOf(r.value.acc) == PointOfVertex(v) && ColorOf(r.value.acc) == v.color
  {
    VertexBytes(bytes, pos, v);
    assert PointCloudSchema[..3] == [SingleX, SingleY, SingleZ];
    assert PointCloudSchema[3..] == [R8, G8, B8];
    ReadPoint(bytes, pos, acc);
    var s := ReadRecord(bytes, pos, [SingleX, SingleY, SingleZ], acc).value;
    ReadColor(bytes, pos + 12, s.acc);
    ReadRecordSplit(bytes, pos, PointCloudSchema, 3, acc);
  }

  /** Where the parts of a laid-out vertex sit. */
  lemma VertexBytes(bytes: seq<Byte>, pos: nat, v: Vertex)
    requires WritableVertex(v) && pos + 15 <= |bytes| && bytes[pos..pos + 15] == EncodeVertex(v)
    ensures bytes[pos..pos + 4] == v.x && bytes[pos + 4..pos + 8] == v.y && bytes[pos + 8..pos + 12] == v.z
    ensures bytes[pos + 12] == v.color.r && bytes[pos + 13] == v.color.g && bytes[pos + 14] == v.color.b
  {
    var xy, xyz := v.x + v.y, v.x + v.y + v.z;
    var b15 := bytes[pos..pos + 15];
    var b12 := bytes[pos..pos + 12];
    var b8 := bytes[pos..pos + 8];
    assert b15 == xyz + [v.color.r, v.color.g, v.color.b];
    assert b12 == b15[..12] == xyz;
    assert b8 == b12[..8] == xy;
    assert bytes[pos..pos + 4] == b8[..4] == v.x;
    assert bytes[pos + 4..pos + 8] == b8[4..] == v.y;
    assert bytes[pos + 8..pos + 12] == b12[8..] == v.z;
    assert bytes[pos + 12] == b15[12] && bytes[pos + 13] == b15[13] && bytes[pos + 14] == b15[14];
  }

  /** Float x, y and z from the cursor, when their twelve bytes are there. */
  lemma ReadPoint(bytes: seq<Byte>, pos: nat, acc: Accumulator)
    requires pos + 12 <= |bytes|
    ensures var r := ReadRecord(bytes, pos, [SingleX, SingleY, SingleZ], acc);
            && r.Ok? && r.value.pos == pos + 12 && ColorOf(r.value.acc) == ColorOf(acc)
            && PointOf(r.value.acc) == Point(Single(bytes[pos..pos + 4]), Single(bytes[pos + 4..pos + 8]), Single(bytes[pos + 8..pos + 12]))
  {
    var s1 := ReadProperty(bytes, pos, SingleX, acc).value;
    var s2 := ReadProperty(bytes, pos + 4, SingleY, s1.acc).value;
    var s3 := ReadProperty(bytes, pos + 8, SingleZ, s2.acc).value;
    RecordCons(bytes, pos, [SingleX, SingleY, SingleZ], acc);
    RecordCons(bytes, pos + 4, [SingleY, SingleZ], s1.acc);
    RecordCons(bytes, pos + 8, [SingleZ], s2.acc);
    assert ReadRecord(bytes, pos, [SingleX, SingleY, SingleZ], acc) == Ok(s3);
  }

  /** A record is its first property, then the others from where it ended. */
  lemma RecordCons(bytes: seq<Byte>, pos: nat, props: seq<DataProperty>, acc: Accumulator)
    requires |props| > 0
    ensures var s := ReadProperty(bytes, pos, props[0], acc);
            s.Ok? ==> ReadRecord(bytes, pos, props, acc) == ReadRecord(bytes, s.value.pos, props[1..], s.value.acc)
  {
  }

  /** Uchar red, green and blue from the cursor, when their three bytes are there. */
  lemma ReadColor(bytes: seq<Byte>, pos: nat, acc: Accumulator)
    requires pos + 3 <= |bytes|
    ensures var r := ReadRecord(bytes, pos, [R8, G8, B8], acc);
            && r.Ok? && r.value.pos == pos + 3 && PointOf(r.value.acc) == PointOf(acc)
            && ColorOf(r.value.acc) == Rgb(bytes[pos], bytes[pos + 1], bytes[pos + 2])
  {
    var s1 := ReadProperty(bytes, pos, R8, acc).value;
    var s2 := ReadProperty(bytes, pos + 1, G8, s1.acc).value;
    var s3 := ReadProperty(bytes, pos + 2, B8, s2.acc).value;
    RecordCons(bytes, pos, [R8, G8, B8], acc);
    RecordCons(bytes, pos + 1, [G8, B8], s1.acc);
    RecordCons(bytes, pos + 2, [B8], s2.acc);
    assert ReadRecord(bytes, pos, [R8, G8, B8], acc) == Ok(s3);
  }

  /** A record is its first `n` properties, then the rest from where they ended. */
  lemma {:induction false} ReadRecordSplit(bytes: seq<Byte>, pos: nat, props: seq<DataProperty>, n: nat, acc: Accumulator)
    requires n <= |props|
    ensures var first := ReadRecord(bytes, pos, props[..n], acc);
            && (first.Err? ==> ReadRecord(bytes, pos, props, acc).Err?)
            && (first.Ok? ==> ReadRecord(bytes, pos, props, acc) == ReadRecord(bytes, first.value.pos, props[n..], first.value.acc))
    decreases n
  {
    if n > 0 {
      var s := ReadProperty(bytes, pos, props[0], acc);
      assert props[..n][0] == props[0] && props[..n][1..] == props[1..][..n - 1];
      assert props[n..] == props[1..][n - 1..];
      if s.Ok? {
        ReadRecordSplit(bytes, s.value.pos, props[1..], n - 1, s.value.acc);
      }
    } else {
      assert props[n..] == props;
    }
  }

  /** Vertices laid out one after another. */
  function EncodeVertices(vs: seq<Vertex>): (raw: seq<Byte>)
    requires forall k :: 0 <= k < |vs| ==> WritableVertex(vs[k])
    ensures |raw| == 15 * |vs|
  {
    if |vs| == 0 then [] else EncodeVertex(vs[0]) + EncodeVertices(vs[1..])
  }

  /** `vs` are laid out one after another from `pos` on. */
  predicate VerticesAt(bytes: seq<Byte>, pos: nat, vs: seq<Vertex>)
    decreases |vs|
  {
    |vs| == 0 ||
    (WritableVertex(vs[0]) && pos + 15 <= |bytes| && bytes[pos..pos + 15] == EncodeVertex(vs[0])
     && VerticesAt(bytes, pos + 15, vs[1..]))
  }

  /** Encoded vertices sit where they were put, whatever surrounds them. */
  lemma {:induction false} EncodedVerticesAt(prefix: seq<Byte>, vs: seq<Vertex>, trailing: seq<Byte>)
    requires forall k :: 0 <= k < |vs| ==> WritableVertex(vs[k])
    ensures VerticesAt(prefix + EncodeVertices(vs) + trailing, |prefix|, vs)
    decreases |vs|
  {
    if |vs| > 0 {
      var head := EncodeVertex(vs[0]);
      var tail := EncodeVertices(vs[1..]);
      var bytes := prefix + EncodeVertices(vs) + trailing;
      assert bytes == (prefix + head) + tail + trailing;
      assert bytes[|prefix|..|prefix| + 15] == head;
      EncodedVerticesAt(prefix + head, vs[1..], trailing);
    }
  }

  /** A schema under which every laid-out vertex reads back as its point
      and colour, wherever it sits and whatever the running values were. */
  ghost predicate DecodesVertices(props: seq<DataProperty>) {
    forall bytes: seq<Byte>, pos: nat, v: Vertex, acc: Accumulator
      {:trigger ReadRecord(bytes, pos, props, acc), EncodeVertex(v)} ::
      WritableVertex(v) && pos + 15 <= |bytes| && bytes[pos..pos + 15] == EncodeVertex(v) ==>
        && ReadRecord(bytes, pos, props, acc).Ok?
        && ReadRecord(bytes, pos, props, acc).value.pos == pos + 15
        && PointOf(ReadRecord(bytes, pos, props, acc).value.acc) == PointOfVertex(v)
        && ColorOf(ReadRecord(bytes, pos, props, acc).value.acc) == v.color
  }

  lemma PointCloudDecodes()
    ensures DecodesVertices(PointCloudSchema)
  {
    forall bytes: seq<Byte>, pos: nat, v: Vertex, acc: Accumulator
      | WritableVertex(v) && pos + 15 <= |bytes| && bytes[pos..pos + 15] == EncodeVertex(v)
      ensures ReadRecord(bytes, pos, PointCloudSchema, acc).Ok?
      ensures ReadRecord(bytes, pos, PointCloudSchema, acc).value.pos == pos + 15
      ensures PointOf(ReadRecord(bytes, pos, PointCloudSchema, acc).value.acc) == PointOfVertex(v)
      ensures ColorOf(ReadRecord(bytes, pos, PointCloudSchema, acc).value.acc) == v.color
    {
      RecordRoundTrip(bytes, pos, v, acc);
    }
  }

  /** Laid-out vertices are read back as their points and colours, in order. */
  lemma {:induction false} ReadVerticesAt(bytes: seq<Byte>, pos: nat, vs: seq<Vertex>, props: seq<DataProperty>, acc: Accumulator)
    requires VerticesAt(bytes, pos, vs) && DecodesVertices(props)
    ensures var r := ReadVertices(bytes, pos, |vs|, props, acc);
            && r.Ok? && r.value.pos == pos + 15 * |vs| && Holds(r.value, vs)
    decreases |vs|
  {
    if |vs| > 0 {
      assert EncodeVertex(vs[0]) == bytes[pos..pos + 15];
      var first := ReadRecord(bytes, pos, props, acc);
      assert first.Ok? && first.value.pos == pos + 15;
      var s := first.value;
      var tail := vs[1..];
      ReadVerticesAt(bytes, s.pos, tail, props, s.acc);
      var r' := ReadVertices(bytes, s.pos, |vs| - 1, props, s.acc);
      assert r'.Ok? && Holds(r'.value, tail);
      VerticesFirst(bytes, pos, |vs|, props, acc);
      HoldsCons(vs, r'.value);
    }
  }

  /** A run holds the points and colours of `vs`, in order. */
  predicate Holds(run: VertexRun, vs: seq<Vertex>) {
    && |run.points| == |vs| && |run.colors| == |vs|
    && (forall k :: 0 <= k < |vs| ==> run.points[k] == PointOfVertex(vs[k]))
    && (forall k :: 0 <= k < |vs| ==> run.colors[k] == vs[k].color)
  }

  lemma HoldsCons(vs: seq<Vertex>, rest: VertexRun)
    requires |vs| > 0 && Holds(rest, vs[1..])
    ensures forall a, p :: Holds(VertexRun([PointOfVertex(vs[0])] + rest.points, [vs[0].color] + rest.colors, a, p), vs)
  {
    forall a, p ensures Holds(VertexRun([PointOfVertex(vs[0])] + rest.points, [vs[0].color] + rest.colors, a, p), vs) {
      var run := VertexRun([PointOfVertex(vs[0])] + rest.points, [vs[0].color] + rest.colors, a, p);
      forall k | 0 < k < |vs| ensures run.points[k] == PointOfVertex(vs[k]) && run.colors[k] == vs[k].color {
        assert vs[1..][k - 1] == vs[k];
      }
    }
  }

  /** Vertices laid out under `PointCloudSchema` are read back as their
      points and colours, in order, whatever follows them. */
  lemma VerticesRoundTrip(vs: seq<Vertex>, trailing: seq<Byte>)
    requires forall k :: 0 <= k < |vs| ==> WritableVertex(vs[k])
    ensures var r := ReadVertices(EncodeVertices(vs) + trailing, 0, |vs|, PointCloudSchema, Initial);
            && r.Ok? && r.value.pos == 15 * |vs|
            && (forall k :: 0 <= k < |vs| ==> r.value.points[k] == PointOfVertex(vs[k]))
            && (forall k :: 0 <= k < |vs| ==> r.value.colors[k] == vs[k].color)
            && (forall k :: 0 <= k < |vs| ==> RunningAt(r.value, k, EncodeVertices(vs) + trailing, 0, PointCloudSchema, Initial))
  {
    EncodedVerticesAt([], vs, trailing);
    assert [] + EncodeVertices(vs) + trailing == EncodeVertices(vs) + trailing;
    PointCloudDecodes();
    ReadVerticesAt(EncodeVertices(vs) + trailing, 0, vs, PointCloudSchema, Initial);
    VerticesAreRunningValues(EncodeVertices(vs) + trailing, 0, |vs|, PointCloudSchema, Initial);
  }

  /** Accumulators that differ at most in the alpha channel. */
  predicate SameButAlpha(a1: Accumulator, a2: Accumulator) {
    PointOf(a1) == PointOf(a2) && ColorOf(a1) == ColorOf(a2)
  }

  lemma AlphaIgnoredByProperty(bytes: seq<Byte>, pos: nat, p: DataProperty, a1: Accumulator, a2: Accumulator)
    requires SameButAlpha(a1, a2)
    ensures var r1, r2 := ReadProperty(bytes, pos, p, a1), ReadProperty(bytes, pos, p, a2);
            r1.Ok? == r2.Ok? && (r1.Ok? ==> r1.value.pos == r2.value.pos && SameButAlpha(r1.value.acc, r2.value.acc))
  {
  }

  lemma {:induction false} AlphaIgnoredByRecord(bytes: seq<Byte>, pos: nat, props: seq<DataProperty>, a1: Accumulator, a2: Accumulator)
    requires SameButAlpha(a1, a2)
    ensures var r1, r2 := ReadRecord(bytes, pos, props, a1), ReadRecord(bytes, pos, props, a2);
            r1.Ok? == r2.Ok? && (r1.Ok? ==> r1.value.pos == r2.value.pos && SameButAlpha(r1.value.acc, r2.value.acc))
    decreases |props|
  {
    if |props| > 0 {
      AlphaIgnoredByProperty(bytes, pos, props[0], a1, a2);
      var s1 := ReadProperty(bytes, pos, props[0], a1);
      var s2 := ReadProperty(bytes, pos, props[0], a2);
      if s1.Ok? {
        AlphaIgnoredByRecord(bytes, s1.value.pos, props[1..], s1.value.acc, s2.value.acc);
      }
    }
  }

  /** Alpha is read but never stored: the decoded points and colours do not
      depend on the alpha value the accumulator carries in. */
  lemma {:induction false} AlphaNeverStored(bytes: seq<Byte>, pos: nat, count: nat, props: seq<DataProperty>, acc: Accumulator, alpha: Byte)
    ensures var r1, r2 := ReadVertices(bytes, pos, count, props, acc), ReadVertices(bytes, pos, count, props, acc.(a := alpha));
            r1.Ok? == r2.Ok? && (r1.Ok? ==> r1.value.points == r2.value.points && r1.value.colors == r2.value.colors)
    decreases count
  {
    AlphaNeverStoredFrom(bytes, pos, count, props, acc, acc.(a := alpha));
  }

  lemma {:induction false} AlphaNeverStoredFrom(bytes: seq<Byte>, pos: nat, count: nat, props: seq<DataProperty>, a1: Accumulator, a2: Accumulator)
    requires SameButAlpha(a1, a2)
    ensures var r1, r2 := ReadVertices(bytes, pos, count, props, a1), ReadVertices(bytes, pos, count, props, a2);
            r1.Ok? == r2.Ok? && (r1.Ok? ==> r1.value.points == r2.value.points && r1.value.colors == r2.value.colors)
    decreases count
  {
    if count > 0 {
      AlphaIgnoredByRecord(bytes, pos, props, a1, a2);
      var s1 := ReadRecord(bytes, pos, props, a1);
      var s2 := ReadRecord(bytes, pos, props, a2);
      if s1.Ok? {
        AlphaNeverStoredFrom(bytes, s1.value.pos, count - 1, props, s1.value.acc, s2.value.acc);
      }
    }
  }

  /** `new int[n]`: an array of `n` zeros. */
  function Zeros(n: nat): (z: seq<int>)
    ensures |z| == n && forall k :: 0 <= k < n ==> z[k] == 0
  {
    seq(n, _ => 0)
  }

  /** The face loop's own invariant: while indices are being collected the
      array has the length its count prefix announced. */
  predicate ValidFaceState(st: FaceState) {
    !st.flag ==> st.n == |st.f|
  }

  /** One 32-bit read of the face loop. While a count prefix is expected
      (`flag`) the value allocates a zeroed array of that length; otherwise
      it is stored at the next index, and a full array is kept as a face. */
  function FaceStep(bytes: seq<Byte>, pos: nat, st: FaceState, faces: seq<seq<int>>): (r: Result<FaceCursor>)
    requires ValidFaceState(st)
    ensures r.Ok? ==> pos + 4 <= |bytes| && ValidFaceState(r.value.st)
    ensures r.Ok? && st.flag ==> !r.value.st.flag && r.value.faces == faces
    ensures r.Ok? && !st.flag ==>
              || (!r.value.st.flag && r.value.faces == faces)
              || (r.value.st.flag && r.value.faces == faces + [r.value.st.f] && |r.value.st.f| >= 1)
  {
    if pos + 4 > |bytes| then Err(EndOfStream(pos))
    else
      var v := ReadInt32(bytes, pos);
      if st.flag then
        if v < 0 then Err(NegativeArrayLength(v))
        else Ok(FaceCursor(FaceState(Zeros(v), v, st.counter, false), faces))
      else if st.counter >= |st.f| then Err(FaceIndexOutOfRange(st.counter))
      else
        var f := st.f[st.counter := v];
        var c := st.counter + 1;
        if c == st.n then Ok(FaceCursor(FaceState(f, st.n, 0, true), faces + [f]))
        else Ok(FaceCursor(FaceState(f, st.n, c, false), faces))
  }

  /** The face loop: exactly `words` 32-bit reads, each either a count
      prefix or the next index of the current face. */
  function ReadFaces(bytes: seq<Byte>, pos: nat, words: nat, st: FaceState, faces: seq<seq<int>>): (r: Result<FaceRun>)
    requires ValidFaceState(st)
    ensures r.Ok? ==> r.value.pos == pos + 4 * words
    ensures r.Ok? && words > 0 ==> r.value.pos <= |bytes|
    decreases words
  {
    if words == 0 then Ok(FaceRun(faces, pos))
    else
      var c :- FaceStep(bytes, pos, st, faces);
      ReadFaces(bytes, pos + 4, words - 1, c.st, c.faces)
  }

  /** The face loop keeps the faces it started with, adds at most one
      face per two reads (one more when it starts inside a face), and
      every face it adds has at least one index. */
  lemma {:induction false} FacesBounded(bytes: seq<Byte>, pos: nat, words: nat, st: FaceState, faces: seq<seq<int>>)
    requires ValidFaceState(st)
    ensures var r := ReadFaces(bytes, pos, words, st, faces);
            r.Ok? ==> && |faces| <= |r.value.faces| <= |faces| + (words + if st.flag then 0 else 1) / 2
                      && r.value.faces[..|faces|] == faces
                      && forall k :: |faces| <= k < |r.value.faces| ==> |r.value.faces[k]| >= 1
    decreases words
  {
    if words > 0 {
      var c := FaceStep(bytes, pos, st, faces);
      if c.Ok? {
        FacesBounded(bytes, pos + 4, words - 1, c.value.st, c.value.faces);
        var r := ReadFaces(bytes, pos + 4, words - 1, c.value.st, c.value.faces);
        if r.Ok? && |c.value.faces| > |faces| {
          assert r.value.faces[..|faces|] == r.value.faces[..|c.value.faces|][..|faces|];
        }
      }
    }
  }

  /** `ws` are the 32-bit words stored one after another from `pos` on. */
  predicate WordsAt(bytes: seq<Byte>, pos: nat, ws: seq<Int32>)
    decreases |ws|
  {
    |ws| == 0 || (pos + 4 <= |bytes| && ReadInt32(bytes, pos) == ws[0] && WordsAt(bytes, pos + 4, ws[1..]))
  }

  lemma {:induction false} WordsAtSplit(bytes: seq<Byte>, pos: nat, a: seq<Int32>, b: seq<Int32>)
    requires WordsAt(bytes, pos, a + b)
    ensures WordsAt(bytes, pos, a) && WordsAt(bytes, pos + 4 * |a|, b)
    decreases |a|
  {
    if |a| == 0 {
      assert a + b == b;
    } else {
      assert (a + b)[1..] == a[1..] + b;
      WordsAtSplit(bytes, pos + 4, a[1..], b);
    }
  }

  /** Little-endian 32-bit words, one after another. */
  function EncodeWords(ws: seq<Int32>): (raw: seq<Byte>)
    ensures |raw| == 4 * |ws|
  {
    if |ws| == 0 then [] else EncodeInt32(ws[0]) + EncodeWords(ws[1..])
  }

  /** Encoded words read back as themselves, wherever they sit in the stream. */
  lemma {:induction false} EncodedWordsAt(prefix: seq<Byte>, ws: seq<Int32>, trailing: seq<Byte>)
    ensures WordsAt(prefix + EncodeWords(ws) + trailing, |prefix|, ws)
    decreases |ws|
  {
    if |ws| > 0 {
      var head := EncodeInt32(ws[0]);
      var tail := EncodeWords(ws[1..]);
      assert prefix + EncodeWords(ws) + trailing == prefix + head + (tail + trailing);
      Int32RoundTrip(prefix, ws[0], tail + trailing);
      assert prefix + EncodeWords(ws) + trailing == (prefix + head) + tail + trailing;
      EncodedWordsAt(prefix + head, ws[1..], trailing);
    }
  }

  /** Faces a writer can lay out: each has at least one index and a length
      that fits the 32-bit count prefix. */
  predicate WritableFaces(fs: seq<seq<Int32>>) {
    forall k :: 0 <= k < |fs| ==> 1 <= |fs[k]| < 0x8000_0000
  }

  lemma {:induction false} WritableTail(fs: seq<seq<Int32>>)
    requires |fs| > 0 && WritableFaces(fs)
    ensures WritableFaces(fs[1..])
  {
    forall k | 0 <= k < |fs| - 1 ensures 1 <= |fs[1..][k]| < 0x8000_0000 {
      assert fs[1..][k] == fs[k + 1];
    }
  }

  /** How many 32-bit words the laid-out faces occupy. */
  function WordCount(fs: seq<seq<Int32>>): nat {
    if |fs| == 0 then 0 else 1 + |fs[0]| + WordCount(fs[1..])
  }

  /** The face list as a writer lays it out, word by word: per face, its
      length, then its indices. */
  function FaceWords(fs: seq<seq<Int32>>): (ws: seq<Int32>)
    requires WritableFaces(fs)
    ensures |ws| == WordCount(fs)
  {
    if |fs| == 0 then [] else [|fs[0]|] + fs[0] + FaceWords(fs[1..])
  }

  /** The face list as a writer lays it out, in bytes. */
  function EncodeFaces(fs: seq<seq<Int32>>): (raw: seq<Byte>)
    requires WritableFaces(fs)
    ensures |raw| == 4 * WordCount(fs)
  {
    EncodeWords(FaceWords(fs))
  }

  /** Reading the indices of a face whose first `j` indices are already in place. */
  lemma {:induction false} ReadEncodedIndices(bytes: seq<Byte>, pos: nat, f: seq<Int32>, j: nat, faces: seq<seq<int>>, more: nat)
    requires j < |f| && WordsAt(bytes, pos, f[j..])
    ensures var st := FaceState(f[..j] + Zeros(|f| - j), |f|, j, false);
            ReadFaces(bytes, pos, (|f| - j) + more, st, faces)
            == ReadFaces(bytes, pos + 4 * (|f| - j), more, FaceState(f, |f|, 0, true), faces + [f])
    decreases |f| - j
  {
    var st := FaceState(f[..j] + Zeros(|f| - j), |f|, j, false);
    assert f[j..][1..] == f[j + 1..];
    var f' := st.f[j := f[j]];
    assert f' == f[..j + 1] + Zeros(|f| - (j + 1));
    if j + 1 == |f| {
      assert f' == f;
    } else {
      ReadEncodedIndices(bytes, pos + 4, f, j + 1, faces, more);
    }
  }

  /** One laid-out face: its count prefix, then its indices, after which
      the face is kept and the loop expects a prefix again. */
  lemma {:induction false} ReadEncodedFace(bytes: seq<Byte>, pos: nat, f: seq<Int32>, more: nat, st: FaceState, faces: seq<seq<int>>)
    requires 1 <= |f| < 0x8000_0000 && st.flag && st.counter == 0
    requires WordsAt(bytes, pos, [|f|] + f)
    ensures ReadFaces(bytes, pos, 1 + |f| + more, st, faces)
            == ReadFaces(bytes, pos + 4 + 4 * |f|, more, FaceState(f, |f|, 0, true), faces + [f])
  {
    assert ([|f|] + f)[1..] == f[0..];
    assert f[..0] + Zeros(|f| - 0) == Zeros(|f|);
    ReadEncodedIndices(bytes, pos + 4, f, 0, faces, more);
  }

  /** The first laid-out face of a list, read from a state that expects a count prefix. */
  lemma {:induction false} ReadFirstFace(bytes: seq<Byte>, pos: nat, fs: seq<seq<Int32>>, st: FaceState, faces: seq<seq<int>>)
    requires |fs| > 0 && WritableFaces(fs) && st.flag && st.counter == 0
    requires WordsAt(bytes, pos, FaceWords(fs))
    ensures WritableFaces(fs[1..]) && WordsAt(bytes, pos + 4 + 4 * |fs[0]|, FaceWords(fs[1..]))
    ensures ReadFaces(bytes, pos, WordCount(fs), st, faces)
            == ReadFaces(bytes, pos + 4 + 4 * |fs[0]|, WordCount(fs[1..]), FaceState(fs[0], |fs[0]|, 0, true), faces + [fs[0]])
  {
    WritableTail(fs);
    WordsAtSplit(bytes, pos, [|fs[0]|] + fs[0], FaceWords(fs[1..]));
    ReadEncodedFace(bytes, pos, fs[0], WordCount(fs[1..]), st, faces);
  }

  /** Reading laid-out faces from a state that expects a count prefix. */
  lemma {:induction false} ReadEncodedFaces(bytes: seq<Byte>, pos: nat, fs: seq<seq<Int32>>, st: FaceState, faces: seq<seq<int>>)
    requires WritableFaces(fs) && st.flag && st.counter == 0
    requires WordsAt(bytes, pos, FaceWords(fs))
    ensures ReadFaces(bytes, pos, WordCount(fs), st, faces) == Ok(FaceRun(faces + fs, pos + 4 * WordCount(fs)))
    decreases |fs|
  {
    if |fs| == 0 {
      assert faces + fs == faces;
    } else {
      var next := pos + 4 + 4 * |fs[0]|;
      ReadFirstFace(bytes, pos, fs, st, faces);
      ReadEncodedFaces(bytes, next, fs[1..], FaceState(fs[0], |fs[0]|, 0, true), faces + [fs[0]]);
      assert faces + [fs[0]] + fs[1..] == faces + fs;
      assert next + 4 * WordCount(fs[1..]) == pos + 4 * WordCount(fs);
    }
  }

  /** Faces written as count-prefixed index lists are read back exactly,
      whatever follows them, when the face count covers their words. */
  lemma {:induction false} FacesRoundTrip(fs: seq<seq<Int32>>, trailing: seq<Byte>)
    requires WritableFaces(fs)
    ensures ReadFaces(EncodeFaces(fs) + trailing, 0, WordCount(fs), FaceStart, [])
            == Ok(FaceRun(fs, 4 * WordCount(fs)))
  {
    EncodedWordsAt([], FaceWords(fs), trailing);
    assert [] + EncodeFaces(fs) + trailing == EncodeFaces(fs) + trailing;
    ReadEncodedFaces(EncodeFaces(fs) + trailing, 0, fs, FaceStart, []);
    assert [] + fs == fs;
  }

  /** A count prefix of zero is followed by an index write past the end of
      the empty array. */
  lemma {:induction false} ZeroPrefixOverruns(bytes: seq<Byte>, pos: nat, words: nat, faces: seq<seq<int>>)
    requires words >= 2 && pos + 8 <= |bytes| && ReadInt32(bytes, pos) == 0
    ensures ReadFaces(bytes, pos, words, FaceStart, faces) == Err(FaceIndexOutOfRange(0))
  {
  }

  /** Two streams of the same length with the same bytes from `from` on. */
  predicate AgreeFrom(b1: seq<Byte>, b2: seq<Byte>, from: nat) {
    |b1| == |b2| && forall k :: from <= k < |b1| ==> b1[k] == b2[k]
  }

  lemma PropertyFrom(b1: seq<Byte>, b2: seq<Byte>, from: nat, pos: nat, p: DataProperty, acc: Accumulator)
    requires AgreeFrom(b1, b2, from) && from <= pos
    ensures ReadProperty(b1, pos, p, acc) == ReadProperty(b2, pos, p, acc)
  {
    if pos + PropertySize(p) <= |b1| {
      assert b1[pos..pos + PropertySize(p)] == b2[pos..pos + PropertySize(p)];
    }
  }

  lemma {:induction false} RecordFrom(b1: seq<Byte>, b2: seq<Byte>, from: nat, pos: nat, props: seq<DataProperty>, acc: Accumulator)
    requires AgreeFrom(b1, b2, from) && from <= pos
    ensures ReadRecord(b1, pos, props, acc) == ReadRecord(b2, pos, props, acc)
    decreases |props|
  {
    if |props| > 0 {
      PropertyFrom(b1, b2, from, pos, props[0], acc);
      var s := ReadProperty(b1, pos, props[0], acc);
      if s.Ok? {
        RecordFrom(b1, b2, from, s.value.pos, props[1..], s.value.acc);
      }
    }
  }

  lemma {:induction false} VerticesFrom(b1: seq<Byte>, b2: seq<Byte>, from: nat, pos: nat, count: nat, props: seq<DataProperty>, acc: Accumulator)
    requires AgreeFrom(b1, b2, from) && from <= pos
    ensures ReadVertices(b1, pos, count, props, acc) == ReadVertices(b2, pos, count, props, acc)
    decreases count
  {
    if count > 0 {
      RecordFrom(b1, b2, from, pos, props, acc);
      var s := ReadRecord(b1, pos, props, acc);
      if s.Ok? {
        VerticesFrom(b1, b2, from, s.value.pos, count - 1, props, s.value.acc);
      }
    }
  }

  lemma {:induction false} FacesFrom(b1: seq<Byte>, b2: seq<Byte>, from: nat, pos: nat, words: nat, st: FaceState, faces: seq<seq<int>>)
    requires AgreeFrom(b1, b2, from) && from <= pos && ValidFaceState(st)
    ensures ReadFaces(b1, pos, words, st, faces) == ReadFaces(b2, pos, words, st, faces)
    decreases words
  {
    if words > 0 {
      assert FaceStep(b1, pos, st, faces) == FaceStep(b2, pos, st, faces);
      var c := FaceStep(b1, pos, st, faces);
      if c.Ok? {
        FacesFrom(b1, b2, from, pos + 4, words - 1, c.value.st, c.value.faces);
      }
    }
  }

  /** The body is decoded from byte `pos` on: the bytes before it (the
      header) play no part, only the length of the whole stream does. */
  lemma BodyFrom(header: DataHeader, b1: seq<Byte>, b2: seq<Byte>, pos: nat)
    requires AgreeFrom(b1, b2, pos)
    ensures ReadDataBodyBinary(header, b1, pos) == ReadDataBodyBinary(header, b2, pos)
  {
    var n := Iterations(header.vertexCount);
    VerticesFrom(b1, b2, pos, pos, n, header.properties, Initial);
    var vs := ReadVertices(b1, pos, n, header.properties, Initial);
    if vs.Ok? {
      FacesFrom(b1, b2, pos, vs.value.pos, Iterations(header.faceCount), FaceStart, []);
    }
  }

  /** `ReadDataBodyBinary`: `vertexCount` records from the body offset, then
      `faceCount` 32-bit reads for the faces. A negative count runs its loop
      zero times. */
  function ReadDataBodyBinary(header: DataHeader, bytes: seq<Byte>, pos: nat): (r: Result<DataBody>)
    ensures r.Ok? ==> |r.value.vertices| == Iterations(header.vertexCount) && |r.value.colors| == Iterations(header.vertexCount)
    ensures r.Ok? ==> |r.value.faces| <= Iterations(header.faceCount) / 2
    ensures r.Ok? ==> forall k :: 0 <= k < |r.value.faces| ==> |r.value.faces[k]| >= 1
    ensures r.Ok? && header.faceCount > 0 ==>
              pos + RunWidth(Iterations(header.vertexCount), RecordWidth(header.properties)) + 4 * header.faceCount <= |bytes|
    ensures header.faceCount <= 0 && pos + RunWidth(Iterations(header.vertexCount), RecordWidth(header.properties)) <= |bytes| ==> r.Ok?
    ensures r.Ok? && !Mentions(header.properties, Red) ==> forall k :: 0 <= k < |r.value.colors| ==> r.value.colors[k].r == 255
    ensures r.Ok? && !Mentions(header.properties, Green) ==> forall k :: 0 <= k < |r.value.colors| ==> r.value.colors[k].g == 255
    ensures r.Ok? && !Mentions(header.properties, Blue) ==> forall k :: 0 <= k < |r.value.colors| ==> r.value.colors[k].b == 255
  {
    UnmentionedChannelKept(bytes, pos, Iterations(header.vertexCount), header.properties, Initial, Red);
    UnmentionedChannelKept(bytes, pos, Iterations(header.vertexCount), header.properties, Initial, Green);
    UnmentionedChannelKept(bytes, pos, Iterations(header.vertexCount), header.properties, Initial, Blue);
    VerticesCompleteness(bytes, pos, Iterations(header.vertexCount), header.properties, Initial);
    var vs :- ReadVertices(bytes, pos, Iterations(header.vertexCount), header.properties, Initial);
    FacesBounded(bytes, vs.pos, Iterations(header.faceCount), FaceStart, []);
    var fs :- ReadFaces(bytes, vs.pos, Iterations(header.faceCount), FaceStart, []);
    Ok(DataBody(vs.points, vs.colors, fs.faces))
  }
}
