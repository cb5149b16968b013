/** Shared vocabulary of the PLY reader: bytes, the closed set of vertex
    property kinds with their byte widths, the decoded header and body, and
    the ways a read can fail. */
module PlyTypes {

  /** One byte of the input stream. */
  type Byte = b: int | 0 <= b < 256

  /** A value a 32-bit signed integer can hold (`Convert.ToInt32`, `ReadInt32`). */
  type Int32 = v: int | -0x8000_0000 <= v < 0x8000_0000

  datatype Option<+T> = None | Some(value: T)

  /** Each exception the reader can raise, named after what goes wrong. */
  datatype PlyError =
    | UnexpectedEndOfHeader          // ReadLine returned null before "end_header"
    | BadMagic                       // first line is not "ply"
    | MissingToken(line: string)     // a header line has fewer tokens than it is indexed with
    | BadCount(token: string)        // an element count that does not parse as a 32-bit integer
    | InvalidPropertyType(line: string)
    | UnsupportedPropertyType(line: string)
    | EndOfStream(position: nat)     // a binary read runs past the last byte
    | NegativeArrayLength(length: int)
    | FaceIndexOutOfRange(index: nat)
    | NegativeCapacity(count: int)   // a list created with a negative capacity
    | EmptyPointSet                  // minimum taken over no points
    | ListIndexOutOfRange(index: nat) // a list indexed at or past its end

  /** The outcome of an operation that may throw; usable with `:-`. */
  datatype Result<+T> = Ok(value: T) | Err(error: PlyError) {
    predicate IsFailure() { Err? }

    function PropagateFailure<U>(): Result<U>
      requires Err?
    {
      Err(error)
    }

    function Extract(): T
      requires Ok?
    {
      value
    }
  }

  /** The kinds a vertex property can resolve to. `Invalid` is the
      placeholder for a property whose name is not recognised, and what a
      list property is recorded as; it occupies no bytes. */
  datatype DataProperty =
    | Invalid
    | R8 | G8 | B8 | A8
    | R16 | G16 | B16 | A16
    | SingleX | SingleY | SingleZ
    | DoubleX | DoubleY | DoubleZ
    | Data8 | Data16 | Data32 | Data64

  /** The meaning of a property independently of its width: which colour
      channel or axis it feeds, or none (`Generic`) for an unnamed filler. */
  datatype Family = Red | Green | Blue | Alpha | AxisX | AxisY | AxisZ | Generic | Unresolved

  function FamilyOf(p: DataProperty): Family {
    match p
    case Invalid => Unresolved
    case R8 | R16 => Red
    case G8 | G16 => Green
    case B8 | B16 => Blue
    case A8 | A16 => Alpha
    case SingleX | DoubleX => AxisX
    case SingleY | DoubleY => AxisY
    case SingleZ | DoubleZ => AxisZ
    case Data8 | Data16 | Data32 | Data64 => Generic
  }

  /** Number of bytes a property occupies in a binary vertex record. */
  function PropertySize(p: DataProperty): (w: nat)
    ensures w in {0, 1, 2, 4, 8}
    ensures w == 0 <==> p == Invalid
  {
    match p
    case R8 | G8 | B8 | A8 => 1
    case R16 | G16 | B16 | A16 => 2
    case SingleX | SingleY | SingleZ => 4
    case DoubleX | DoubleY | DoubleZ => 8
    case Data8 => 1
    case Data16 => 2
    case Data32 => 4
    case Data64 => 8
    case Invalid => 0
  }

  /** The generic filler kind of a given width. */
  function Filler(w: nat): (p: DataProperty)
    requires w in {1, 2, 4, 8}
    ensures FamilyOf(p) == Generic && PropertySize(p) == w
  {
    if w == 1 then Data8 else if w == 2 then Data16 else if w == 4 then Data32 else Data64
  }

  /** Colours come in 1 and 2 bytes, axes in 4 and 8 bytes, fillers in every width. */
  lemma SizesOfFamilies(p: DataProperty)
    ensures FamilyOf(p) in {Red, Green, Blue, Alpha} ==> PropertySize(p) in {1, 2}
    ensures FamilyOf(p) in {AxisX, AxisY, AxisZ} ==> PropertySize(p) in {4, 8}
    ensures FamilyOf(p) == Generic ==> p == Filler(PropertySize(p))
  {
  }

  /** A kind is determined by what it means and how wide it is: no two
      distinct kinds share a family and a width. */
  lemma KindDeterminedByFamilyAndSize(p: DataProperty, q: DataProperty)
    requires FamilyOf(p) == FamilyOf(q) && PropertySize(p) == PropertySize(q)
    ensures p == q
  {
  }

  /** A coordinate as the decoders deliver it. Floating point is not
      interpreted: a binary coordinate is the raw little-endian chunk it was
      read from, an ASCII coordinate the token that parsed as a float. */
  datatype Coord = Zero | Single(raw: seq<Byte>) | Double(raw: seq<Byte>) | Text(token: string)

  datatype Point = Point(x: Coord, y: Coord, z: Coord)

  datatype Rgb = Rgb(r: Byte, g: Byte, b: Byte)

  /** The schema the header declares. Counts are -1 until declared. */
  datatype DataHeader = DataHeader(properties: seq<DataProperty>, vertexCount: Int32, faceCount: Int32, binary: bool)

  /** Decoded geometry: parallel point and colour lists, and faces as index lists. */
  datatype DataBody = DataBody(vertices: seq<Point>, colors: seq<Rgb>, faces: seq<seq<int>>)

  /** How many times a `for (i = 0; i < n; i++)` loop runs. */
  function Iterations(n: int): nat {
    if n < 0 then 0 else n
  }
}
