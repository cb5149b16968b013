# PLY reader model

A Dafny model of the PLY reader in `PlyImportConsoleApp/PlyToSchematic.cs`. The reader loads a Polygon File Format file, either ASCII or binary little-endian, and turns its coloured vertices into the blocks of a schematic. The model covers the following, as the C# code does them:

- **Property kinds.** The closed set of vertex property kinds (`DataProperty`) and their byte widths (`GetPropertySize`).
- **Header parser.** `ReadDataHeader` covers the magic line and the format line. It also covers the `element` and `property` declarations: skip mode for foreign elements, the type-token switch with its widening of colours to 16 bits and axes to 64 bits, and its two error messages. Finally, it counts header bytes (`readCount`), which locates the binary body.
- **Binary body decoder.** `ReadDataBodyBinary` reads vertex records in the declared order. Running channel values are never reset between records. The 16-bit colours keep their high byte, the one-byte filler is read, and the wider fillers are skipped without a bounds check. The decoder then runs the face loop: `faceCount` 32-bit reads, grouped into count-prefixed faces.
- **ASCII body decoder.** `ReadDataBodyAscii` splits each line on single spaces. It keeps the lines whose fields 0-2 parse as floats and whose fields 6-8 parse as bytes, and silently skips every other line.
- **Post-processing in the `PLYToSchematic` constructor.** Deduplication keeps the first vertex on each grid cell. Then comes the shift by the smallest coordinate and its `max - min >= 0` filter. Last, the colour is packed into a 32-bit ARGB word.
- **Extents.** The length, width and height that `WriteSchematic` reports.

Every exception the code throws on these paths from the file's contents is a `PlyError` value in a `Result`; running out of memory is not modelled (see "Left out"). Floating-point values are not interpreted. A binary coordinate is kept as the raw bytes it was read from. An ASCII coordinate is kept as the token that parsed. The three text parsers the reader calls are parameters of the model: `Convert.ToInt32`, `float.Parse` and `byte.Parse`. So is the scale-and-truncate step that maps a vertex to a grid cell.

The modules follow the program:

| module | file | what it holds |
|---|---|---|
| `PlyTypes` | `ply_types.dfy` | property kinds and widths, the header and body records, errors |
| `Text` | `text.dfy` | `String.Split` as the reader uses it, with its inverse `Join` |
| `Header` | `header.dfy` | `ReadDataHeader` and the loop lemmas about it |
| `BinaryBody` | `binary_body.dfy` | `ReadDataBodyBinary`, the vertex and face loops |
| `AsciiBody` | `ascii_body.dfy` | `ReadDataBodyAscii` |
| `PostProcess` | `post_process.dfy` | dedup, shift and filter, ARGB packing, extents |
| `PlyReader` | `ply_reader.dfy` | the constructor end to end, as written and corrected |

Where the code does something other than what one would expect from a PLY reader, the model follows the code:

- **Body offset.** The body offset is the sum of each header line's length plus one. This is the byte offset only for ASCII text with single line-feed endings; `PlyReader.BodyStartsAtReadCount` states exactly that case.
- **Running values.** Running colour and position values carry over from one binary record to the next. A channel the schema never declares stays 255 in every colour.
- **Face count.** The binary face loop runs `faceCount` times and reads one 32-bit word per iteration. So `faceCount` counts words, not faces.
- **Fillers.** A 2-, 4- or 8-byte unnamed property only moves the stream position, so it never fails at the end of the stream.
- **List properties.** A `property list` line needs five tokens. It records the kind its third token names. For a count type that kind is `Invalid`, which occupies no bytes.
- **Short ASCII lines.** An ASCII line needs at least nine fields to yield a point. Lines with seven or eight fields pass the length test, but then fail on the missing field, and that failure is caught.

## Model

| member | source | states |
|---|---|---|
| PlyTypes.PropertySize | PlyImportConsoleApp/PlyToSchematic.cs:26-66 | every kind occupies 1, 2, 4 or 8 bytes; a width of 0 (the default return) happens exactly for `Invalid` |
| PlyTypes.Filler | PlyImportConsoleApp/PlyToSchematic.cs:56-63 | for each width there is an unnamed filler kind of exactly that width |
| PlyTypes.SizesOfFamilies | PlyImportConsoleApp/PlyToSchematic.cs:17-66 | colour kinds are 1 or 2 bytes wide, axis kinds 4 or 8, and every unnamed kind is the filler of its width |
| PlyTypes.KindDeterminedByFamilyAndSize | PlyImportConsoleApp/PlyToSchematic.cs:17-66 | two kinds with the same meaning and the same width are the same kind, so the widening in the header switch cannot be ambiguous |
| Text.SplitBy | PlyImportConsoleApp/PlyToSchematic.cs:135 | a split yields one more piece than there are separators, empty pieces included, and no piece contains a separator |
| Text.JoinSplit | PlyImportConsoleApp/PlyToSchematic.cs:470 | splitting on one character loses nothing: joining the pieces with that character gives the line back |
| Text.SplitJoin | PlyImportConsoleApp/PlyToSchematic.cs:470 | joining separator-free fields with a separator and splitting again gives exactly the fields back |
| Text.Tokens | PlyImportConsoleApp/PlyToSchematic.cs:135 | a header line always has a first token, so `col[0]` never fails |
| Text.Fields | PlyImportConsoleApp/PlyToSchematic.cs:470 | a body line always has a first field, and its fields joined by single spaces are the line |
| Header.ResolveByFamilyAndWidth | PlyImportConsoleApp/PlyToSchematic.cs:158-280 | for a known type token, a scalar property resolves iff some kind has the name's meaning and the type's width, and it then resolves to that kind; otherwise the error is "Invalid property type". An unknown token gives "Unsupported property type" |
| Header.ListPropertyTakesNoBytes | PlyImportConsoleApp/PlyToSchematic.cs:198-204 | a `property list <count-type> ...` line records `Invalid`, which takes no bytes in a record |
| Header.ApplyDeclaration | PlyImportConsoleApp/PlyToSchematic.cs:135-283 | one declaration line keeps the format flag and sets skip mode as element lines dictate. An `element vertex` or `element face` line succeeds iff its third token parses, and sets that count to the parsed value; no other line changes a count. A property line outside a skipped element succeeds iff the type switch resolves it, appends the resolved kind, and otherwise fails with the switch's error. Under skip mode a non-element line changes nothing |
| Header.ApplyDeclarationAppends | PlyImportConsoleApp/PlyToSchematic.cs:282 | a declaration line only appends: the properties already recorded stay in front, unchanged |
| Header.DeclarationBehaves | PlyImportConsoleApp/PlyToSchematic.cs:135-283 | the per-line step of the header loop keeps the format, keeps undeclared counts, counts properties and only appends |
| Header.ReadDeclarations | PlyImportConsoleApp/PlyToSchematic.cs:123-134 | when the loop succeeds it has consumed at least one more line, within the input, and the last line it consumed is "end_header" |
| Header.DeclarationsStopAtEnd | PlyImportConsoleApp/PlyToSchematic.cs:128-134 | the loop stops at the first "end_header", and fails when no line is "end_header" |
| Header.DeclarationsCountBytes | PlyImportConsoleApp/PlyToSchematic.cs:128-132 | `readCount` grows by each consumed line's length plus one, "end_header" included |
| Header.DeclarationsKeepFormat | PlyImportConsoleApp/PlyToSchematic.cs:117-134 | the binary flag set from the format line survives the declaration loop |
| Header.DeclarationsKeepCounts | PlyImportConsoleApp/PlyToSchematic.cs:138-149 | the vertex or face count changes only if some consumed line declares that element |
| Header.DeclarationsRecord | PlyImportConsoleApp/PlyToSchematic.cs:137-283 | the loop adds exactly one property per property line that is not under a skipped element |
| Header.DeclarationsAppend | PlyImportConsoleApp/PlyToSchematic.cs:282 | the properties the loop started with stay in front, in order |
| Header.ReadDataHeader | PlyImportConsoleApp/PlyToSchematic.cs:107-290 | a first line other than "ply" is a magic-number error. On success: the header ends at the first "end_header"; binary iff the second line is the binary little-endian format line; `readCount` is the byte count of the consumed lines. Its schema and counts are stated by `Header.HeaderDeclarations` |
| Header.HeaderStart | PlyImportConsoleApp/PlyToSchematic.cs:68-73 | a fresh header has no properties and both counts -1, and it is binary iff the format line names binary little endian |
| Header.HeaderDeclarations | PlyImportConsoleApp/PlyToSchematic.cs:68-283 | after a successful header the property list is exactly the kinds the type switch resolves for the property lines outside skipped elements, in file order (`Schema`); each count is the value of the last line declaring its element, and -1 if none does |
| Header.DeclarationsSchema | PlyImportConsoleApp/PlyToSchematic.cs:123-283 | the loop appends to the properties it started with exactly the resolved kinds of the recorded property lines, and succeeds only if every one of them resolves |
| Header.DeclarationsCount | PlyImportConsoleApp/PlyToSchematic.cs:137-149 | after the loop each count is the value parsed from the last consumed line declaring its element, or the starting count |
| Header.UnresolvedPropertyRejected | PlyImportConsoleApp/PlyToSchematic.cs:158-283 | a header one of whose recorded property lines has a type the switch rejects is not read |
| Header.SkippedElementRecordsNothing | PlyImportConsoleApp/PlyToSchematic.cs:145-152 | under a foreign element, property lines add nothing until the next element line |
| BinaryBody.Take | PlyImportConsoleApp/PlyToSchematic.cs:339-401 | a read of `w` bytes succeeds iff they are all before the end of the stream, and then yields exactly those bytes |
| BinaryBody.HighByteOfUInt16 | PlyImportConsoleApp/PlyToSchematic.cs:356-371 | `(byte)(ReadUInt16() >> 8)` keeps the second, most significant byte |
| BinaryBody.Int32RoundTrip | PlyImportConsoleApp/PlyToSchematic.cs:435-442 | little-endian two's-complement bytes of any 32-bit integer read back as that integer, wherever they sit |
| BinaryBody.Store | PlyImportConsoleApp/PlyToSchematic.cs:338-402 | a read property changes only its own channel or axis. An 8-bit colour stores its byte, a 16-bit colour its high byte, a float or double axis the value of its bytes; alpha changes only for an alpha property, and the 8-bit filler changes nothing |
| BinaryBody.PropertyValues | PlyImportConsoleApp/PlyToSchematic.cs:338-416 | read from a stream, an 8-bit channel gets the byte at the cursor, a float axis the four bytes there and a double axis the eight; fillers change no running value |
| BinaryBody.ReadProperty | PlyImportConsoleApp/PlyToSchematic.cs:338-416 | the cursor advances by the property's width. A read fails exactly at the end of the stream, and a multi-byte filler never fails. A 16-bit colour gets the byte at cursor+1. Every channel and axis of another meaning is untouched |
| BinaryBody.ReadRecord | PlyImportConsoleApp/PlyToSchematic.cs:335-417 | a record advances the cursor by the sum of its properties' widths |
| BinaryBody.RecordCompleteness | PlyImportConsoleApp/PlyToSchematic.cs:335-417 | a record is read whenever its bytes are present; without multi-byte fillers, only then |
| BinaryBody.RecordKeepsUnmentioned | PlyImportConsoleApp/PlyToSchematic.cs:302-417 | a colour channel no property feeds keeps its value across a record |
| BinaryBody.ReadVertices | PlyImportConsoleApp/PlyToSchematic.cs:334-420 | `count` records give exactly `count` points and colours, and the cursor moves by `count` times the record width |
| BinaryBody.VerticesAreRunningValues | PlyImportConsoleApp/PlyToSchematic.cs:302-420 | the loop succeeds iff reading `count` records in a row does, and point and colour `k` are the running values after record `k` |
| BinaryBody.RecordRoundTrip | PlyImportConsoleApp/PlyToSchematic.cs:334-420 | a vertex written as three floats and three colour bytes reads back as that point and colour, whatever the running values were |
| BinaryBody.VerticesRoundTrip | PlyImportConsoleApp/PlyToSchematic.cs:299-420 | vertices written one record each read back, whatever follows, as exactly those points and colours, in order |
| BinaryBody.BodyFrom | PlyImportConsoleApp/PlyToSchematic.cs:299-463 | the binary body depends only on the bytes from its start offset on |
| BinaryBody.VerticesCompleteness | PlyImportConsoleApp/PlyToSchematic.cs:334-420 | the vertex loop succeeds whenever all its bytes are present; without multi-byte fillers, only then |
| BinaryBody.UnmentionedChannelKept | PlyImportConsoleApp/PlyToSchematic.cs:302-420 | a colour channel the schema never declares has its initial value in every decoded colour |
| BinaryBody.AlphaNeverStored | PlyImportConsoleApp/PlyToSchematic.cs:351-419 | alpha is read but never used: decoded points and colours do not depend on it |
| BinaryBody.Zeros | PlyImportConsoleApp/PlyToSchematic.cs:437 | `new int[n]` has `n` elements, all zero |
| BinaryBody.FaceStep | PlyImportConsoleApp/PlyToSchematic.cs:433-456 | one word needs four bytes. A count prefix starts a face and adds none. An index either keeps filling the face or completes it, and a completed face has at least one index. The face array always has its announced length |
| BinaryBody.ReadFaces | PlyImportConsoleApp/PlyToSchematic.cs:427-459 | the face loop consumes exactly four bytes per iteration, all within the stream |
| BinaryBody.FacesBounded | PlyImportConsoleApp/PlyToSchematic.cs:427-459 | the face loop keeps earlier faces and adds at most one face per two words; every added face is non-empty |
| BinaryBody.FacesRoundTrip | PlyImportConsoleApp/PlyToSchematic.cs:427-459 | faces written as count-prefixed index lists are read back exactly, whatever follows, when `faceCount` is their number of words |
| BinaryBody.ZeroPrefixOverruns | PlyImportConsoleApp/PlyToSchematic.cs:437-443 | a zero count prefix followed by another word writes past the empty array |
| BinaryBody.ReadDataBodyBinary | PlyImportConsoleApp/PlyToSchematic.cs:299-463 | one point and colour per vertex iteration; at most one face per two face words, each non-empty; the face words lie within the stream; a body without face words succeeds whenever the vertex bytes are present; an undeclared colour channel is 255 in every colour |
| AsciiBody.ParseRecord | PlyImportConsoleApp/PlyToSchematic.cs:470-484 | a line yields a point iff it has at least nine fields, fields 0-2 parse as floats and fields 6-8 as bytes. The point is fields 0-2 and the colour is the parsed bytes |
| AsciiBody.ReadDataBodyAscii | PlyImportConsoleApp/PlyToSchematic.cs:465-488 | decoding never fails and never yields faces, and gives at most one point, with its colour, per line |
| AsciiBody.OneLine | PlyImportConsoleApp/PlyToSchematic.cs:469-485 | a single line yields exactly its record, or nothing |
| AsciiBody.AsciiAppend | PlyImportConsoleApp/PlyToSchematic.cs:469-485 | decoding is line by line: the points and colours of a concatenation are those of each part, in order |
| AsciiBody.AsciiCount | PlyImportConsoleApp/PlyToSchematic.cs:469-485 | there is one point per well-formed line, so every line gives a point iff every line is well formed |
| AsciiBody.LineRoundTrip | PlyImportConsoleApp/PlyToSchematic.cs:470-480 | a record written as space-separated fields decodes back to its coordinates and colour |
| PostProcess.FirstIffUnseen | PlyImportConsoleApp/PlyToSchematic.cs:520-521 | a vertex is the first on its cell iff its cell is not among the cells seen before it |
| PostProcess.DedupFromMatches | PlyImportConsoleApp/PlyToSchematic.cs:514-527 | from any point of the loop where `set` holds the cells so far and the lists their first vertices, the loop ends with the first vertex of every cell |
| PostProcess.DedupIsFirstOccurrences | PlyImportConsoleApp/PlyToSchematic.cs:514-527 | deduplication keeps exactly the first vertex on each cell, in input order |
| PostProcess.KeptAreFirsts | PlyImportConsoleApp/PlyToSchematic.cs:519-524 | every kept vertex, with its colour, is the first on its cell |
| PostProcess.FirstsAreKept | PlyImportConsoleApp/PlyToSchematic.cs:519-524 | every vertex that is first on its cell is kept |
| PostProcess.FirstOccurrencesDistinct | PlyImportConsoleApp/PlyToSchematic.cs:514-527 | kept vertices lie on distinct cells and cover every cell of the input |
| PostProcess.DistinctIsFixed | PlyImportConsoleApp/PlyToSchematic.cs:514-527 | a list with no repeated cell is left as it is |
| PostProcess.DedupIdempotent | PlyImportConsoleApp/PlyToSchematic.cs:514-527 | deduplicating twice is deduplicating once |
| PostProcess.DedupSize | PlyImportConsoleApp/PlyToSchematic.cs:514-527 | there are as many kept vertices as distinct cells, and no more than the input has |
| PostProcess.MinOnAxis | PlyImportConsoleApp/PlyToSchematic.cs:529-531 | `MinBy` on an axis gives a coordinate some cell has and no cell is below |
| PostProcess.MaxOnAxis | PlyImportConsoleApp/PlyToSchematic.cs:557-559 | `MaxBy` on an axis gives a coordinate some cell has and no cell is above |
| PostProcess.MinCoordinateIsLeast | PlyImportConsoleApp/PlyToSchematic.cs:529-533 | the combined minimum bounds every coordinate of every cell on every axis and is one of them |
| PostProcess.PackArgb | PlyImportConsoleApp/PlyToSchematic.cs:538 | the packed colour is the four channels as base-256 digits, alpha first, despite the signed wrap-around |
| PostProcess.UnpackArgb | PlyImportConsoleApp/PlyToSchematic.cs:538 | the word fits in 32 bits, and each channel reads back out of its byte |
| PostProcess.PackInjective | PlyImportConsoleApp/PlyToSchematic.cs:538 | opaque colours that pack to the same word are the same colour |
| PostProcess.NormaliseFromKeepsAll | PlyImportConsoleApp/PlyToSchematic.cs:534-541 | when `min` bounds the coordinates, the `max - min >= 0` filter keeps every vertex; block `k` is vertex `k` shifted |
| PostProcess.Normalise | PlyImportConsoleApp/PlyToSchematic.cs:529-541 | one block per kept vertex, in order; each is shifted by the least coordinate and carries its opaque packed colour |
| PostProcess.NormaliseShiftsToOrigin | PlyImportConsoleApp/PlyToSchematic.cs:529-541 | after the shift no coordinate is negative and some coordinate is zero |
| PostProcess.NormaliseKeepsDistinct | PlyImportConsoleApp/PlyToSchematic.cs:534-541 | vertices on distinct cells become blocks at distinct positions |
| PostProcess.SchematicExtents | PlyImportConsoleApp/PlyToSchematic.cs:552-566 | extents of no blocks fail, as `MinBy` does. Otherwise Length is the tight bound on the distance between two blocks on the Z axis: no two are further apart and some two are exactly that far. Width is the same on X and Height on Y |
| PostProcess.SpanIsTight | PlyImportConsoleApp/PlyToSchematic.cs:553-564 | `\|max - min\|` on an axis bounds the distance between any two cells on it, and some pair of cells is exactly that far apart |
| PlyReader.ReadBody | PlyImportConsoleApp/PlyToSchematic.cs:493-495 | the body has as many colours as points. A binary body has one point per declared vertex record; an ASCII body never fails, has no faces and has one point per well-formed line after "end_header" |
| PlyReader.BinaryBodyStartsAtReadCount | PlyImportConsoleApp/PlyToSchematic.cs:287-495 | a binary body is read from byte `readCount` of the file: the header lines and the bytes before that offset do not affect it |
| PlyReader.Convert | PlyImportConsoleApp/PlyToSchematic.cs:497-541 | it fails iff there are no vertices (`MinBy` on nothing). Otherwise block `k` is the first vertex on the `k`-th distinct cell, shifted by the least coordinate of those cells, with its packed colour; the blocks are at pairwise distinct positions, none with a negative coordinate |
| PlyReader.ConvertAsWritten | PlyImportConsoleApp/PlyToSchematic.cs:497-546 | fewer than five distinct cells fail with an index error after the blocks are built; success agrees with the corrected conversion |
| PlyReader.ConstructAsWritten | PlyImportConsoleApp/PlyToSchematic.cs:80-84 | an undeclared (negative) vertex or face count fails as a negative list capacity, before any body byte is read |
| PlyReader.Construct | PlyImportConsoleApp/PlyToSchematic.cs:493-541 | once the body decodes, the only failure is an empty point set, and success gives at least one block |
| PlyReader.ConstructAgrees | PlyImportConsoleApp/PlyToSchematic.cs:493-546 | the as-written and corrected constructions agree when the former succeeds, and whenever both counts are declared and five distinct cells result |
| PlyReader.ReadPlyAsWritten | PlyImportConsoleApp/PlyToSchematic.cs:491-548 | the constructor as written succeeds only on a valid header whose vertex and face counts are both non-negative, which needs both elements declared |
| PlyReader.ReadPly | PlyImportConsoleApp/PlyToSchematic.cs:491-541 | the corrected constructor succeeds only on a valid header and then yields at least one block |
| PlyReader.AsWrittenAgrees | PlyImportConsoleApp/PlyToSchematic.cs:491-548 | the two constructors agree whenever the as-written one succeeds, and whenever both counts are declared and five distinct cells result |
| PlyReader.PointCloudWithoutFaces | PlyImportConsoleApp/PlyToSchematic.cs:70-84 | an ASCII file with no `element face` and at least one well-formed point is rejected as written and read by the corrected constructor |
| PlyReader.FewCellsFail | PlyImportConsoleApp/PlyToSchematic.cs:543-546 | points on fewer than five distinct cells are rejected as written; the corrected conversion returns one block per cell |
| PlyReader.LineBytesAreEncodedLength | PlyImportConsoleApp/PlyToSchematic.cs:113-132 | one byte per character plus one per line end is the length of ASCII lines encoded with line feeds |
| PlyReader.BodyStartsAtReadCount | PlyImportConsoleApp/PlyToSchematic.cs:109-287 | for ASCII header lines with line-feed endings, `readCount` is the byte length of the header, so the binary body starts right after "end_header" |

## Left out

- Floating point. Coordinates are not interpreted: binary ones are kept as raw bytes, ASCII ones as tokens.
- Shift, scale and truncation (lines 501-512). These map a vertex to a grid cell and are a `Placement` parameter of the conversion.
- Text parsers. `Convert.ToInt32`, `float.Parse` and `byte.Parse` are parameters: a partial function from token to value.
- Streams. `StreamReader` and `BinaryReader` are not modelled: the file is given both as its lines and as its bytes, and the model does not derive one from the other. `PlyReader.BodyStartsAtReadCount` states when the header byte count matches the bytes.
- Other line endings. Carriage-return endings and multi-byte UTF-8 characters are not modelled: for them `readCount` is not the byte offset.
- String length. `line.Length` (line 132) counts UTF-16 code units, while the model's `|line|` counts characters. A character outside the Basic Multilingual Plane counts 1 in the model and 2 in .NET, so `readCount` and `LineBytes` differ for header lines holding one.
- Memory. `new List<T>(count)` (lines 81-83) and `new int[n]` (line 437) throw `OutOfMemoryException` for counts beyond what the runtime can allocate. The model has no such limit, so `PlyReader.ConstructAsWritten` and `BinaryBody.FaceStep` succeed for such counts.
- Console and progress output. `Console.WriteLine`, the progress bar (lines 518, 525) and the `LoadedSchematic` register (lines 568-570) are output only. The five debug prints at lines 543-546 are kept only as the failure they cause.
- The `Schematic` container, the block list's set semantics and the commented-out quantization in `WriteSchematic` are not modelled. The base class in `AbstractToSchematic.cs` is not part of this model.
- The faces decoded from a binary body are not used by the conversion, and the model drops them there as the code does.
- PlyReader.Convert: block positions are unbounded integers; the `(ushort)` narrowing of each coordinate at line 539 is not modelled, because the cell coordinates come from the floating-point `Placement`.
- PostProcess.SchematicExtents: the extents are unbounded naturals; the `(ushort)` narrowing of `Math.Abs(max - min)` at lines 562-564 is not modelled.
- BinaryBody.ReadDataBodyBinary: a `double` axis is kept as its eight raw bytes, so the `(float)` narrowing at lines 387-395 is not modelled.

## Findings

| source | as written | input that shows it | evidently intended | confidence | as-written member | corrected member |
|---|---|---|---|---|---|---|
| PlyImportConsoleApp/PlyToSchematic.cs:80-84 | both body readers start with `new DataBody(vertexCount, faceCount)`, which creates lists with those capacities; a count the header never declares stays -1 (line 71), and a negative capacity throws | an ASCII point cloud: `ply`, `format ascii 1.0`, `element vertex 1`, the `x y z` and colour properties, `end_header`, `0 0 0 0 0 0 1 2 3` — no `element face` line | a file without faces is read as a point cloud, with no faces | medium, not executed | PlyReader.ReadPlyAsWritten, shown by PlyReader.PointCloudWithoutFaces | PlyReader.ReadPly, proved to succeed on that input by PlyReader.PointCloudWithoutFaces |
| PlyImportConsoleApp/PlyToSchematic.cs:543-546 | after the blocks are built, a debug loop prints `vertices[i]` for `i` from 0 to 4, which throws when fewer than five distinct cells remain | a file that declares both elements and whose points fall on one to four distinct grid cells, such as the file above with `element face 0` added | the conversion returns its blocks, whatever their number | high, not executed | PlyReader.ConvertAsWritten, shown by PlyReader.FewCellsFail | PlyReader.Convert, proved by PlyReader.FewCellsFail to return one block per distinct cell |
