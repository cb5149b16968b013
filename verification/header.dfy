/** The header parser (`ReadDataHeader`): reads the text preamble line by
    line into the property schema and the element counts, and counts the
    bytes it consumed so that the body can be read from the next byte. */
module Header {
  import opened PlyTypes
  import opened Text

  const Magic: string := "ply"
  const BinaryFormat: string := "format binary_little_endian 1.0"
  const EndHeader: string := "end_header"

  const OneByteTypes: set<string> := {"char", "uchar", "int8", "uint8"}
  const TwoByteTypes: set<string> := {"short", "ushort", "int16", "uint16"}
  const FourByteTypes: set<string> := {"int", "uint", "float", "int32", "uint32", "float32"}
  const EightByteTypes: set<string> := {"int64", "uint64", "double", "float64"}

  /** The schema, the byte offset at which the body starts (`readCount`),
      and how many lines the parser read, "end_header" included. */
  datatype HeaderRead = HeaderRead(header: DataHeader, readCount: nat, consumed: nat)

  /** Parser state between lines: the schema so far, and whether property
      lines currently belong to an element that is being skipped. */
  datatype HeaderState = HeaderState(header: DataHeader, skip: bool)

  /** The bytes the parser charges for some lines: each line's length plus
      one for its terminator. */
  function LineBytes(lines: seq<string>): nat {
    if |lines| == 0 then 0 else |lines[0]| + 1 + LineBytes(lines[1..])
  }

  /** The kind a property name selects before its type token is looked at. */
  function NameKind(name: string): DataProperty {
    if name == "red" then R8
    else if name == "green" then G8
    else if name == "blue" then B8
    else if name == "alpha" then A8
    else if name == "x" then SingleX
    else if name == "y" then SingleY
    else if name == "z" then SingleZ
    else Invalid
  }

  /** What a property name means, whatever its width: a colour channel, an
      axis, or nothing the decoder uses. */
  function NameFamily(name: string): Family {
    if name == "red" then Red
    else if name == "green" then Green
    else if name == "blue" then Blue
    else if name == "alpha" then Alpha
    else if name == "x" then AxisX
    else if name == "y" then AxisY
    else if name == "z" then AxisZ
    else Generic
  }

  /** The storage width a scalar type token declares, if it is one the reader knows. */
  function TypeWidth(token: string): Option<nat> {
    if token in OneByteTypes then Some(1)
    else if token in TwoByteTypes then Some(2)
    else if token in FourByteTypes then Some(4)
    else if token in EightByteTypes then Some(8)
    else None
  }

  /** Whether some property kind has the given meaning and width. */
  ghost predicate HasKind(f: Family, w: nat) {
    exists p :: FamilyOf(p) == f && PropertySize(p) == w
  }

  /** The switch on the type token of a scalar property line: a filler for
      an unnamed property, a widened colour for a 2-byte type, a widened
      axis for an 8-byte type, and an error for any other width mismatch. */
  function ResolveType(prop: DataProperty, token: string, line: string): Result<DataProperty> {
    if token in OneByteTypes then
      if prop == Invalid then Ok(Data8)
      else if PropertySize(prop) != 1 then Err(InvalidPropertyType(line))
      else Ok(prop)
    else if token in TwoByteTypes then
      var widened := match prop
        case Invalid => Data16
        case R8 => R16
        case G8 => G16
        case B8 => B16
        case A8 => A16
        case _ => prop;
      if PropertySize(widened) != 2 then Err(InvalidPropertyType(line)) else Ok(widened)
    else if token in FourByteTypes then
      if prop == Invalid then Ok(Data32)
      else if PropertySize(prop) != 4 then Err(InvalidPropertyType(line))
      else Ok(prop)
    else if token in EightByteTypes then
      var widened := match prop
        case Invalid => Data64
        case SingleX => DoubleX
        case SingleY => DoubleY
        case SingleZ => DoubleZ
        case _ => prop;
      if PropertySize(widened) != 8 then Err(InvalidPropertyType(line)) else Ok(widened)
    else Err(UnsupportedPropertyType(line))
  }

  /** Resolution of a scalar property is the one kind that has the name's
      meaning and the type's width: it succeeds exactly when such a kind
      exists, its result then is that kind, an existing type with no such
      kind is "Invalid property type", and an unknown type is "Unsupported
      property type". */
  lemma ResolveByFamilyAndWidth(name: string, token: string, line: string)
    ensures var r := ResolveType(NameKind(name), token, line);
            match TypeWidth(token)
            case None => r == Err(UnsupportedPropertyType(line))
            case Some(w) =>
              && (r.Ok? <==> HasKind(NameFamily(name), w))
              && (r.Ok? ==> FamilyOf(r.value) == NameFamily(name) && PropertySize(r.value) == w)
              && (r.Err? ==> r.error == InvalidPropertyType(line))
  {
    var r := ResolveType(NameKind(name), token, line);
    var f := NameFamily(name);
    match TypeWidth(token)
    case None =>
    case Some(w) =>
      if r.Ok? {
        assert FamilyOf(r.value) == f && PropertySize(r.value) == w;
      } else {
        forall p | FamilyOf(p) == f
          ensures PropertySize(p) != w
        {
        }
      }
  }

  /** The property a `property ...` line adds: a list property records the
      kind its third token names (so `Invalid` for a count type), a scalar
      one is resolved from its name and type tokens. */
  function ResolveProperty(col: seq<string>, line: string): Result<DataProperty> {
    if |col| < 3 then Err(MissingToken(line))
    else
      var prop := NameKind(col[2]);
      if col[1] == "list" then
        if |col| < 5 then Err(MissingToken(line)) else Ok(prop)
      else ResolveType(prop, col[1], line)
  }

  /** A list property line under a vertex or face element records `Invalid`,
      which takes no bytes in a record. */
  lemma ListPropertyTakesNoBytes(line: string)
    requires var col := Tokens(line); |col| >= 5 && col[1] == "list" && TypeWidth(col[2]).Some?
    ensures ResolveProperty(Tokens(line), line) == Ok(Invalid)
    ensures PropertySize(ResolveProperty(Tokens(line), line).value) == 0
  {
  }

  predicate IsElementLine(line: string) {
    Tokens(line)[0] == "element"
  }

  predicate IsPropertyLine(line: string) {
    Tokens(line)[0] == "property"
  }

  /** `line` is `element <name> ...`. */
  predicate Declares(line: string, name: string) {
    var col := Tokens(line);
    col[0] == "element" && |col| >= 2 && col[1] == name
  }

  /** An `element` line: vertex and face set their count and accept
      properties, any other element skips the properties that follow. */
  function ReadElement(col: seq<string>, line: string, st: HeaderState, parseInt: string -> Option<Int32>): Result<HeaderState> {
    if |col| < 2 then Err(MissingToken(line))
    else if col[1] == "vertex" then
      if |col| < 3 then Err(MissingToken(line))
      else match parseInt(col[2])
        case None => Err(BadCount(col[2]))
        case Some(n) => Ok(HeaderState(st.header.(vertexCount := n), false))
    else if col[1] == "face" then
      if |col| < 3 then Err(MissingToken(line))
      else match parseInt(col[2])
        case None => Err(BadCount(col[2]))
        case Some(n) => Ok(HeaderState(st.header.(faceCount := n), false))
    else Ok(st.(skip := true))
  }

  /** One header line after the format line and before "end_header". */
  function ApplyDeclaration(line: string, st: HeaderState, parseInt: string -> Option<Int32>): (r: Result<HeaderState>)
    ensures r.Ok? ==> r.value.header.binary == st.header.binary
    ensures r.Ok? && !Declares(line, "vertex") ==> r.value.header.vertexCount == st.header.vertexCount
    ensures r.Ok? && !Declares(line, "face") ==> r.value.header.faceCount == st.header.faceCount
    ensures r.Ok? ==> r.value.skip == SkipAfter(line, st.skip)
    ensures r.Ok? ==> |r.value.header.properties| == |st.header.properties| + Added(line, st.skip)
    ensures st.skip && !IsElementLine(line) ==> r == Ok(st)
    ensures r.Ok? ==> Declared(line, st.skip, ResolveProperty).Some?
                      && r.value.header.properties == st.header.properties + Declared(line, st.skip, ResolveProperty).value
    ensures IsPropertyLine(line) && !st.skip ==> (r.Ok? <==> ResolveProperty(Tokens(line), line).Ok?)
    ensures IsPropertyLine(line) && !st.skip && r.Err? ==> r.error == ResolveProperty(Tokens(line), line).error
    ensures Declares(line, "vertex") ==> (r.Ok? <==> ElementCount(line, parseInt).Some?)
    ensures Declares(line, "vertex") && r.Ok? ==> r.value.header.vertexCount == ElementCount(line, parseInt).value
    ensures Declares(line, "face") ==> (r.Ok? <==> ElementCount(line, parseInt).Some?)
    ensures Declares(line, "face") && r.Ok? ==> r.value.header.faceCount == ElementCount(line, parseInt).value
  {
    var col := Tokens(line);
    var st1 :- if col[0] == "element" then ReadElement(col, line, st, parseInt) else Ok(st);
    if st1.skip then Ok(st1)
    else if col[0] == "property" then
      var p :- ResolveProperty(col, line);
      Ok(st1.(header := st1.header.(properties := st1.header.properties + [p])))
    else Ok(st1)
  }

  /** How a property line's tokens resolve to a kind. */
  type Resolver = (seq<string>, string) -> Result<DataProperty>

  /** The count an `element <name> <count>` line declares, if its third
      token is there and parses. */
  function ElementCount(line: string, parseInt: string -> Option<Int32>): Option<Int32> {
    var col := Tokens(line);
    if |col| < 3 then None else parseInt(col[2])
  }

  /** What `line` adds to the schema when the parser reaches it in skip
      mode `skip`: nothing for a line that records no property, the kind a
      recorded property line resolves to, and `None` when that resolution
      fails. The reader resolves with `ResolveProperty`; the loop lemmas
      only need some `resolve`. */
  function Declared(line: string, skip: bool, resolve: Resolver): Option<seq<DataProperty>> {
    if Added(line, skip) == 0 then Some([])
    else match resolve(Tokens(line), line)
      case Ok(p) => Some([p])
      case Err(_) => None
  }

  /** The schema `lines[from..to]` declare when the parser reaches line
      `from` in skip mode `skip`: the resolved kinds of the recorded
      property lines, in order, or `None` when one of them does not resolve. */
  function Schema(lines: seq<string>, from: nat, to: nat, skip: bool, resolve: Resolver): Option<seq<DataProperty>>
    requires from <= to <= |lines|
    decreases |lines| - from
  {
    if from == to then Some([])
    else
      var d := Declared(lines[from], skip, resolve);
      var rest := Schema(lines, from + 1, to, SkipAfter(lines[from], skip), resolve);
      if d.Some? && rest.Some? then Some(d.value + rest.value) else None
  }

  /** A count after `line`: the value it declares for element `name`, or
      `count` when it declares no such element. */
  function CountAfter(line: string, name: string, parseInt: string -> Option<Int32>, count: Int32): Int32 {
    if Declares(line, name) && ElementCount(line, parseInt).Some? then ElementCount(line, parseInt).value else count
  }

  /** The count of element `name` after `lines[from..to]`, starting from
      `count`: the value of the last line that declares it. */
  function LastCount(lines: seq<string>, from: nat, to: nat, name: string, parseInt: string -> Option<Int32>, count: Int32): Int32
    requires from <= to <= |lines|
    decreases |lines| - from
  {
    if from == to then count
    else LastCount(lines, from + 1, to, name, parseInt, CountAfter(lines[from], name, parseInt, count))
  }

  /** A declaration line never changes the properties already recorded. */
  lemma ApplyDeclarationAppends(line: string, st: HeaderState, parseInt: string -> Option<Int32>)
    ensures var r := ApplyDeclaration(line, st, parseInt);
            r.Ok? ==> r.value.header.properties[..|st.header.properties|] == st.header.properties
  {
  }

  /** The skip mode after `line`: an element line turns it on for any
      element other than vertex and face and off for those two; every other
      line leaves it as it is. */
  predicate SkipAfter(line: string, skip: bool) {
    if IsElementLine(line) then !(Declares(line, "vertex") || Declares(line, "face")) else skip
  }

  /** Whether `line` adds a property when the parser reaches it in skip
      mode `skip`: it is a property line and not under a skipped element. */
  function Added(line: string, skip: bool): nat {
    if IsPropertyLine(line) && !SkipAfter(line, skip) then 1 else 0
  }

  /** How many of `lines[from..to]` add a property when the parser reaches
      line `from` in skip mode `skip`: the property lines not under a
      skipped element. */
  function Recorded(lines: seq<string>, from: nat, to: nat, skip: bool): nat
    requires from <= to <= |lines|
    decreases |lines| - from
  {
    if from == to then 0
    else
      Added(lines[from], skip) + Recorded(lines, from + 1, to, SkipAfter(lines[from], skip))
  }

  /** What the declaration loop does with one line; the reader's step is
      `Declaration(parseInt)`. The loop lemmas below ask only for the
      properties of the step they need. */
  type DeclarationStep = (string, HeaderState) -> Result<HeaderState>

  function Declaration(parseInt: string -> Option<Int32>): DeclarationStep {
    (line, st) => ApplyDeclaration(line, st, parseInt)
  }

  ghost predicate KeepsFormat(step: DeclarationStep) {
    forall line, st :: step(line, st).Ok? ==> step(line, st).value.header.binary == st.header.binary
  }

  ghost predicate KeepsCounts(step: DeclarationStep) {
    forall line, st :: step(line, st).Ok? ==>
      && (!Declares(line, "vertex") ==> step(line, st).value.header.vertexCount == st.header.vertexCount)
      && (!Declares(line, "face") ==> step(line, st).value.header.faceCount == st.header.faceCount)
  }

  ghost predicate CountsProperties(step: DeclarationStep) {
    forall line, st :: step(line, st).Ok? ==>
      && step(line, st).value.skip == SkipAfter(line, st.skip)
      && |step(line, st).value.header.properties| == |st.header.properties| + Added(line, st.skip)
  }

  ghost predicate AppendsProperties(step: DeclarationStep) {
    forall line, st :: step(line, st).Ok? ==>
      && |st.header.properties| <= |step(line, st).value.header.properties|
      && step(line, st).value.header.properties[..|st.header.properties|] == st.header.properties
  }

  /** The reader's step has every property the loop lemmas ask for. */
  lemma DeclarationBehaves(parseInt: string -> Option<Int32>)
    ensures KeepsFormat(Declaration(parseInt)) && KeepsCounts(Declaration(parseInt))
    ensures CountsProperties(Declaration(parseInt)) && AppendsProperties(Declaration(parseInt))
  {
    forall line, st
      ensures var r := ApplyDeclaration(line, st, parseInt);
              r.Ok? ==> && |st.header.properties| <= |r.value.header.properties|
                        && r.value.header.properties[..|st.header.properties|] == st.header.properties
    {
      ApplyDeclarationAppends(line, st, parseInt);
    }
  }

  ghost predicate RecordsSchema(step: DeclarationStep, resolve: Resolver) {
    forall line, st :: step(line, st).Ok? ==>
      && step(line, st).value.skip == SkipAfter(line, st.skip)
      && Declared(line, st.skip, resolve).Some?
      && step(line, st).value.header.properties == st.header.properties + Declared(line, st.skip, resolve).value
  }

  ghost predicate SetsCounts(step: DeclarationStep, parseInt: string -> Option<Int32>) {
    forall line, st :: step(line, st).Ok? ==>
      && step(line, st).value.header.vertexCount == CountAfter(line, "vertex", parseInt, st.header.vertexCount)
      && step(line, st).value.header.faceCount == CountAfter(line, "face", parseInt, st.header.faceCount)
  }

  /** The reader's step records the kind each property line resolves to
      and the count each element line declares. */
  lemma DeclarationRecords(parseInt: string -> Option<Int32>)
    ensures RecordsSchema(Declaration(parseInt), ResolveProperty) && SetsCounts(Declaration(parseInt), parseInt)
  {
  }

  /** The declaration loop (lines 123-284) from line `i` on, with
      `readCount` bytes counted so far. */
  function ReadDeclarations(lines: seq<string>, i: nat, st: HeaderState, readCount: nat, step: DeclarationStep): (r: Result<HeaderRead>)
    requires i <= |lines|
    ensures r.Ok? ==> i < r.value.consumed <= |lines| && lines[r.value.consumed - 1] == EndHeader
    decreases |lines| - i
  {
    if i == |lines| then Err(UnexpectedEndOfHeader)
    else
      var line := lines[i];
      var count := readCount + |line| + 1;
      if line == EndHeader then Ok(HeaderRead(st.header, count, i + 1))
      else
        var st' :- step(line, st);
        ReadDeclarations(lines, i + 1, st', count, step)
  }

  /** The declaration loop stops at the first "end_header" and fails when
      there is none. */
  lemma {:induction false} DeclarationsStopAtEnd(lines: seq<string>, i: nat, st: HeaderState, readCount: nat, step: DeclarationStep)
    requires i <= |lines|
    ensures var r := ReadDeclarations(lines, i, st, readCount, step);
            && (r.Ok? ==> forall k :: i <= k < r.value.consumed - 1 ==> lines[k] != EndHeader)
            && ((forall k :: i <= k < |lines| ==> lines[k] != EndHeader) ==> r.Err?)
    decreases |lines| - i
  {
    if i < |lines| && lines[i] != EndHeader {
      var st1 := step(lines[i], st);
      if st1.Ok? {
        DeclarationsStopAtEnd(lines, i + 1, st1.value, readCount + |lines[i]| + 1, step);
      }
    }
  }

  /** The byte count grows by each consumed line's length plus one for its
      line break, "end_header" included. */
  lemma {:induction false} DeclarationsCountBytes(lines: seq<string>, i: nat, st: HeaderState, readCount: nat, step: DeclarationStep)
    requires i <= |lines|
    ensures var r := ReadDeclarations(lines, i, st, readCount, step);
            r.Ok? ==> r.value.readCount == readCount + LineBytes(lines[i..r.value.consumed])
    decreases |lines| - i
  {
    if i < |lines| && lines[i] != EndHeader {
      var st1 := step(lines[i], st);
      if st1.Ok? {
        DeclarationsCountBytes(lines, i + 1, st1.value, readCount + |lines[i]| + 1, step);
        var r := ReadDeclarations(lines, i + 1, st1.value, readCount + |lines[i]| + 1, step);
        if r.Ok? {
          assert lines[i..r.value.consumed][1..] == lines[i + 1..r.value.consumed];
        }
      }
    }
  }

  /** The format flag set from the second line survives the loop. */
  lemma {:induction false} DeclarationsKeepFormat(lines: seq<string>, i: nat, st: HeaderState, readCount: nat, step: DeclarationStep)
    requires i <= |lines| && KeepsFormat(step)
    ensures var r := ReadDeclarations(lines, i, st, readCount, step);
            r.Ok? ==> r.value.header.binary == st.header.binary
    decreases |lines| - i
  {
    if i < |lines| && lines[i] != EndHeader {
      var st1 := step(lines[i], st);
      if st1.Ok? {
        DeclarationsKeepFormat(lines, i + 1, st1.value, readCount + |lines[i]| + 1, step);
      }
    }
  }

  /** None of `lines[from..to]` is an `element <name>` line. */
  predicate Undeclared(lines: seq<string>, from: nat, to: nat, name: string)
    requires from <= to <= |lines|
    decreases |lines| - from
  {
    from == to || (!Declares(lines[from], name) && Undeclared(lines, from + 1, to, name))
  }

  /** A count changes in the declaration loop only if a line declares its element. */
  lemma {:induction false} DeclarationsKeepCounts(lines: seq<string>, i: nat, st: HeaderState, readCount: nat, step: DeclarationStep)
    requires i <= |lines| && KeepsCounts(step)
    ensures var r := ReadDeclarations(lines, i, st, readCount, step);
            r.Ok? ==>
              && (Undeclared(lines, i, r.value.consumed, "vertex") ==> r.value.header.vertexCount == st.header.vertexCount)
              && (Undeclared(lines, i, r.value.consumed, "face") ==> r.value.header.faceCount == st.header.faceCount)
    decreases |lines| - i
  {
    if i < |lines| && lines[i] != EndHeader {
      var st1 := step(lines[i], st);
      if st1.Ok? {
        DeclarationsKeepCounts(lines, i + 1, st1.value, readCount + |lines[i]| + 1, step);
      }
    }
  }

  /** The declaration loop appends one property per recorded line. */
  lemma {:induction false} DeclarationsRecord(lines: seq<string>, i: nat, st: HeaderState, readCount: nat, step: DeclarationStep)
    requires i <= |lines| && CountsProperties(step)
    ensures var r := ReadDeclarations(lines, i, st, readCount, step);
            r.Ok? ==> |r.value.header.properties| == |st.header.properties| + Recorded(lines, i, r.value.consumed - 1, st.skip)
    decreases |lines| - i
  {
    if i < |lines| && lines[i] != EndHeader {
      var st1 := step(lines[i], st);
      if st1.Ok? {
        var st' := st1.value;
        DeclarationsRecord(lines, i + 1, st', readCount + |lines[i]| + 1, step);
      }
    }
  }

  /** The declaration loop only appends: the properties it started with
      stay in front, in order. */
  lemma {:induction false} DeclarationsAppend(lines: seq<string>, i: nat, st: HeaderState, readCount: nat, step: DeclarationStep)
    requires i <= |lines| && AppendsProperties(step)
    ensures var r := ReadDeclarations(lines, i, st, readCount, step);
            r.Ok? ==> && |st.header.properties| <= |r.value.header.properties|
                      && r.value.header.properties[..|st.header.properties|] == st.header.properties
    decreases |lines| - i
  {
    if i < |lines| && lines[i] != EndHeader {
      var st1 := step(lines[i], st);
      if st1.Ok? {
        var st' := st1.value;
        DeclarationsAppend(lines, i + 1, st', readCount + |lines[i]| + 1, step);
        var r := ReadDeclarations(lines, i + 1, st', readCount + |lines[i]| + 1, step);
        if r.Ok? {
          var after := r.value.header.properties;
          assert after[..|st.header.properties|] == after[..|st'.header.properties|][..|st.header.properties|];
        }
      }
    }
  }

  /** The declaration loop appends the schema of the lines it consumed
      before "end_header"; in particular it fails when one of their
      recorded property lines does not resolve. */
  lemma {:induction false} DeclarationsSchema(lines: seq<string>, i: nat, st: HeaderState, readCount: nat, step: DeclarationStep, resolve: Resolver)
    requires i <= |lines| && RecordsSchema(step, resolve)
    ensures var r := ReadDeclarations(lines, i, st, readCount, step);
            r.Ok? ==> && Schema(lines, i, r.value.consumed - 1, st.skip, resolve).Some?
                      && r.value.header.properties == st.header.properties + Schema(lines, i, r.value.consumed - 1, st.skip, resolve).value
    decreases |lines| - i
  {
    if i < |lines| {
      if lines[i] == EndHeader {
        assert st.header.properties + [] == st.header.properties;
      } else {
        var st1 := step(lines[i], st);
        if st1.Ok? {
          var st' := st1.value;
          DeclarationsSchema(lines, i + 1, st', readCount + |lines[i]| + 1, step, resolve);
          var r := ReadDeclarations(lines, i + 1, st', readCount + |lines[i]| + 1, step);
          if r.Ok? {
            var d := Declared(lines[i], st.skip, resolve).value;
            var rest := Schema(lines, i + 1, r.value.consumed - 1, st'.skip, resolve).value;
            assert st.header.properties + d + rest == st.header.properties + (d + rest);
          }
        }
      }
    }
  }

  /** Each count after the declaration loop is the value the last line
      declaring its element gave it, or the starting value. */
  lemma {:induction false} DeclarationsCount(lines: seq<string>, i: nat, st: HeaderState, readCount: nat, step: DeclarationStep, parseInt: string -> Option<Int32>)
    requires i <= |lines| && SetsCounts(step, parseInt)
    ensures var r := ReadDeclarations(lines, i, st, readCount, step);
            r.Ok? ==> && r.value.header.vertexCount == LastCount(lines, i, r.value.consumed - 1, "vertex", parseInt, st.header.vertexCount)
                      && r.value.header.faceCount == LastCount(lines, i, r.value.consumed - 1, "face", parseInt, st.header.faceCount)
    decreases |lines| - i
  {
    if i < |lines| && lines[i] != EndHeader {
      var st1 := step(lines[i], st);
      if st1.Ok? {
        DeclarationsCount(lines, i + 1, st1.value, readCount + |lines[i]| + 1, step, parseInt);
      }
    }
  }

  /** `ReadDataHeader`: magic line, format line, then declarations up to and
      including "end_header". */
  function ReadDataHeader(lines: seq<string>, parseInt: string -> Option<Int32>): (r: Result<HeaderRead>)
    ensures |lines| >= 1 && lines[0] != Magic ==> r == Err(BadMagic)
    ensures r.Ok? ==> |lines| > 2 && lines[0] == Magic
    ensures r.Ok? ==> 2 < r.value.consumed <= |lines| && lines[r.value.consumed - 1] == EndHeader
    ensures r.Ok? ==> forall k :: 2 <= k < r.value.consumed - 1 ==> lines[k] != EndHeader
    ensures r.Ok? ==> (r.value.header.binary <==> lines[1] == BinaryFormat)
    ensures r.Ok? ==> r.value.readCount == LineBytes(lines[..r.value.consumed])
  {
    if |lines| == 0 then Err(UnexpectedEndOfHeader)
    else if lines[0] != Magic then Err(BadMagic)
    else if |lines| == 1 then Err(UnexpectedEndOfHeader)
    else
      var start := HeaderStart(lines[1]);
      var count := |lines[0]| + 1 + |lines[1]| + 1;
      var r := ReadDeclarations(lines, 2, start, count, Declaration(parseInt));
      DeclarationBehaves(parseInt);
      DeclarationsStopAtEnd(lines, 2, start, count, Declaration(parseInt));
      DeclarationsCountBytes(lines, 2, start, count, Declaration(parseInt));
      DeclarationsKeepFormat(lines, 2, start, count, Declaration(parseInt));
      if r.Ok? then
        LineBytesAfterTwo(lines, r.value.consumed);
        r
      else r
  }

  /** The state the declaration loop starts from: no properties, both
      counts -1, the format the second line names. */
  function HeaderStart(format: string): (st: HeaderState)
    ensures st.header.properties == [] && st.header.vertexCount == -1 && st.header.faceCount == -1
    ensures st.header.binary <==> format == BinaryFormat
    ensures !st.skip
  {
    HeaderState(DataHeader([], -1, -1, format == BinaryFormat), false)
  }

  /** What a successfully read header declares: the schema is the kinds
      the recorded property lines resolve to, in order, one per property
      line outside skipped elements; each count is the value the last line
      declaring its element gave it, and stays -1 when no line does. */
  lemma HeaderDeclarations(lines: seq<string>, parseInt: string -> Option<Int32>)
    ensures var r := ReadDataHeader(lines, parseInt);
            r.Ok? ==>
              && Schema(lines, 2, r.value.consumed - 1, false, ResolveProperty) == Some(r.value.header.properties)
              && |r.value.header.properties| == Recorded(lines, 2, r.value.consumed - 1, false)
              && r.value.header.vertexCount == LastCount(lines, 2, r.value.consumed - 1, "vertex", parseInt, -1)
              && r.value.header.faceCount == LastCount(lines, 2, r.value.consumed - 1, "face", parseInt, -1)
              && (Undeclared(lines, 2, r.value.consumed, "vertex") ==> r.value.header.vertexCount == -1)
              && (Undeclared(lines, 2, r.value.consumed, "face") ==> r.value.header.faceCount == -1)
  {
    if |lines| >= 2 && lines[0] == Magic {
      var start := HeaderStart(lines[1]);
      var count := |lines[0]| + 1 + |lines[1]| + 1;
      DeclarationBehaves(parseInt);
      DeclarationRecords(parseInt);
      DeclarationsKeepCounts(lines, 2, start, count, Declaration(parseInt));
      DeclarationsRecord(lines, 2, start, count, Declaration(parseInt));
      DeclarationsSchema(lines, 2, start, count, Declaration(parseInt), ResolveProperty);
      DeclarationsCount(lines, 2, start, count, Declaration(parseInt), parseInt);
      var r := ReadDeclarations(lines, 2, start, count, Declaration(parseInt));
      assert ReadDataHeader(lines, parseInt) == r;
      if r.Ok? {
        var schema := Schema(lines, 2, r.value.consumed - 1, false, ResolveProperty).value;
        assert [] + schema == schema;
      }
    }
  }

  /** A header one of whose recorded property lines (before the first
      "end_header") names a type the switch rejects is not read at all. */
  lemma UnresolvedPropertyRejected(lines: seq<string>, parseInt: string -> Option<Int32>, e: nat)
    requires 2 <= e < |lines| && lines[e] == EndHeader
    requires forall k :: 2 <= k < e ==> lines[k] != EndHeader
    requires Schema(lines, 2, e, false, ResolveProperty).None?
    ensures ReadDataHeader(lines, parseInt).Err?
  {
    HeaderDeclarations(lines, parseInt);
  }

  /** The bytes of the first `c` lines: the magic and format lines, then the rest. */
  lemma LineBytesAfterTwo(lines: seq<string>, c: nat)
    requires 2 <= c <= |lines|
    ensures LineBytes(lines[..c]) == |lines[0]| + 1 + |lines[1]| + 1 + LineBytes(lines[2..c])
  {
    assert lines[..c][1..] == lines[1..c];
    assert lines[1..c][1..] == lines[2..c];
  }

  /** Property lines that follow an element other than vertex and face add
      nothing, however many there are. */
  lemma {:induction false} SkippedElementRecordsNothing(lines: seq<string>, from: nat, to: nat)
    requires from <= to <= |lines|
    requires forall k :: from <= k < to ==> !IsElementLine(lines[k])
    ensures Recorded(lines, from, to, true) == 0
    decreases |lines| - from
  {
    if from < to {
      SkippedElementRecordsNothing(lines, from + 1, to);
    }
  }
}
