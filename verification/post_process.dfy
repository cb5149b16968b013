/** The integer part of the conversion in the `PLYToSchematic` constructor:
    first-occurrence deduplication of grid cells, the shift by the smallest
    coordinate with its (vacuous) filter, ARGB packing, and the per-axis
    extents `WriteSchematic` reports. */
module PostProcess {
  import opened PlyTypes

  /** A grid cell: a point after it has been shifted, scaled and truncated. */
  datatype Cell = Cell(x: int, y: int, z: int)

  /** A cell with the colour of the vertex it came from. */
  datatype Sample = Sample(cell: Cell, color: Rgb)

  /** A block of the schematic: its cell after normalisation and its packed colour. */
  datatype Block = Block(pos: Cell, argb: nat)

  datatype Axis = X | Y | Z

  function Coordinate(c: Cell, a: Axis): int {
    match a
    case X => c.x
    case Y => c.y
    case Z => c.z
  }

  // ---------------------------------------------------------------------
  // Deduplication
  // ---------------------------------------------------------------------

  /** The cells of a sample list, as a set. */
  function CellSet(s: seq<Sample>): set<Cell> {
    if |s| == 0 then {} else CellSet(s[..|s| - 1]) + {s[|s| - 1].cell}
  }

  /** A cell is in the set exactly when some sample sits on it. */
  lemma {:induction false} CellSetMembers(s: seq<Sample>, c: Cell)
    ensures c in CellSet(s) <==> exists i :: 0 <= i < |s| && s[i].cell == c
    decreases |s|
  {
    if |s| > 0 {
      var n := |s| - 1;
      CellSetMembers(s[..n], c);
      assert forall i :: 0 <= i < n ==> s[..n][i] == s[i];
    }
  }

  /** Sample `i` is the first one at its cell. */
  predicate IsFirst(s: seq<Sample>, i: nat)
    requires i < |s|
  {
    forall j :: 0 <= j < i ==> s[j].cell != s[i].cell
  }

  /** Reference: the samples that are the first at their cell, in order. */
  function FirstOccurrences(s: seq<Sample>): seq<Sample> {
    if |s| == 0 then []
    else FirstOccurrences(s[..|s| - 1]) + (if IsFirst(s, |s| - 1) then [s[|s| - 1]] else [])
  }

  predicate Distinct(s: seq<Sample>) {
    forall a, b :: 0 <= a < b < |s| ==> s[a].cell != s[b].cell
  }

  /** The loop at lines 516-524: walk the samples in order, keep one whose
      cell has not been seen, and remember its cell. */
  function DedupFrom(s: seq<Sample>, i: nat, seen: set<Cell>, kept: seq<Sample>): (out: seq<Sample>)
    requires i <= |s|
    decreases |s| - i
  {
    if i == |s| then kept
    else if s[i].cell in seen then DedupFrom(s, i + 1, seen, kept)
    else DedupFrom(s, i + 1, seen + {s[i].cell}, kept + [s[i]])
  }

  function Dedup(s: seq<Sample>): seq<Sample> {
    DedupFrom(s, 0, {}, [])
  }

  lemma IsFirstOfPrefix(s: seq<Sample>, i: nat)
    requires i < |s|
    ensures IsFirst(s[..i + 1], i) == IsFirst(s, i)
    ensures s[..i + 1][..i] == s[..i]
  {
    assert forall j :: 0 <= j <= i ==> s[..i + 1][j] == s[j];
  }

  /** Sample `i` is first at its cell exactly when its cell is not among the
      cells before it. */
  lemma FirstIffUnseen(s: seq<Sample>, i: nat)
    requires i < |s|
    ensures IsFirst(s, i) <==> s[i].cell !in CellSet(s[..i])
  {
    CellSetMembers(s[..i], s[i].cell);
    assert forall j :: 0 <= j < i ==> s[..i][j] == s[j];
  }

  /** The fold computes the reference: the seen set is the cells of the
      prefix walked so far, and the kept list its first occurrences. */
  lemma {:induction false} DedupFromMatches(s: seq<Sample>, i: nat, seen: set<Cell>, kept: seq<Sample>)
    requires i <= |s|
    requires seen == CellSet(s[..i]) && kept == FirstOccurrences(s[..i])
    ensures DedupFrom(s, i, seen, kept) == FirstOccurrences(s)
    decreases |s| - i
  {
    if i == |s| {
      assert s[..i] == s;
    } else {
      IsFirstOfPrefix(s, i);
      FirstIffUnseen(s, i);
      assert CellSet(s[..i + 1]) == seen + {s[i].cell};
      DedupFromMatches(s, i + 1, if s[i].cell in seen then seen else seen + {s[i].cell},
                       if s[i].cell in seen then kept else kept + [s[i]]);
    }
  }

  /** Deduplication keeps exactly the first sample at each cell, in order. */
  lemma DedupIsFirstOccurrences(s: seq<Sample>)
    ensures Dedup(s) == FirstOccurrences(s)
  {
    assert s[..0] == [];
    DedupFromMatches(s, 0, {}, []);
  }

  /** Unfolds the reference at its last sample. */
  lemma FirstOccurrencesLast(s: seq<Sample>)
    requires |s| > 0
    ensures IsFirst(s, |s| - 1) ==> FirstOccurrences(s) == FirstOccurrences(s[..|s| - 1]) + [s[|s| - 1]]
    ensures !IsFirst(s, |s| - 1) ==> FirstOccurrences(s) == FirstOccurrences(s[..|s| - 1])
  {
  }

  /** A sample first at its cell within a prefix is first in the whole list. */
  lemma FirstInPrefix(s: seq<Sample>, n: nat, i: nat)
    requires i < n <= |s|
    ensures IsFirst(s[..n], i) == IsFirst(s, i)
  {
    assert forall j :: 0 <= j <= i ==> s[..n][j] == s[j];
  }

  /** Every kept sample is the first at its cell: the colour that survives
      is the one of the first occurrence. */
  lemma {:induction false} KeptAreFirsts(s: seq<Sample>)
    ensures forall k :: 0 <= k < |FirstOccurrences(s)| ==>
              exists i :: 0 <= i < |s| && IsFirst(s, i) && FirstOccurrences(s)[k] == s[i]
    decreases |s|
  {
    if |s| > 0 {
      var n := |s| - 1;
      var p := s[..n];
      KeptAreFirsts(p);
      FirstOccurrencesLast(s);
      var fp := FirstOccurrences(p);
      var f := FirstOccurrences(s);
      forall k | 0 <= k < |f|
        ensures exists i :: 0 <= i < |s| && IsFirst(s, i) && f[k] == s[i]
      {
        if k < |fp| {
          var i :| 0 <= i < |p| && IsFirst(p, i) && fp[k] == p[i];
          FirstInPrefix(s, n, i);
          assert f[k] == fp[k] == s[i];
          assert 0 <= i < |s| && IsFirst(s, i) && f[k] == s[i];
        } else {
          assert f == fp + [s[n]];
          assert f[k] == s[n] && IsFirst(s, n);
          assert 0 <= n < |s| && IsFirst(s, n) && f[k] == s[n];
        }
      }
    } else {
      assert FirstOccurrences(s) == [];
    }
  }

  /** Every sample that is first at its cell is kept. */
  lemma {:induction false} FirstsAreKept(s: seq<Sample>)
    ensures forall i :: 0 <= i < |s| && IsFirst(s, i) ==> s[i] in FirstOccurrences(s)
    decreases |s|
  {
    if |s| > 0 {
      var n := |s| - 1;
      var p := s[..n];
      FirstsAreKept(p);
      FirstOccurrencesLast(s);
      var fp := FirstOccurrences(p);
      var f := FirstOccurrences(s);
      assert forall x :: x in fp ==> x in f;
      forall i | 0 <= i < |s| && IsFirst(s, i)
        ensures s[i] in f
      {
        if i < n {
          FirstInPrefix(s, n, i);
          assert p[i] == s[i];
        } else {
          assert f == fp + [s[n]];
        }
      }
    }
  }

  /** Appending a sample at a new cell keeps a list free of repeated cells. */
  lemma DistinctSnoc(t: seq<Sample>, x: Sample)
    requires Distinct(t) && x.cell !in CellSet(t)
    ensures Distinct(t + [x])
    ensures CellSet(t + [x]) == CellSet(t) + {x.cell}
  {
    CellSetMembers(t, x.cell);
    var u := t + [x];
    assert u[..|t|] == t;
    forall a, b | 0 <= a < b < |u|
      ensures u[a].cell != u[b].cell
    {
      assert u[a] == t[a];
      if b < |t| {
        assert u[b] == t[b];
      }
    }
  }

  /** The kept samples cover every cell of the input. */
  lemma {:induction false} FirstOccurrencesCells(s: seq<Sample>)
    ensures CellSet(FirstOccurrences(s)) == CellSet(s)
    decreases |s|
  {
    if |s| > 0 {
      var n := |s| - 1;
      var p := s[..n];
      FirstOccurrencesCells(p);
      var fp := FirstOccurrences(p);
      FirstOccurrencesLast(s);
      if IsFirst(s, n) {
        var f := fp + [s[n]];
        assert f[..|f| - 1] == fp;
      } else {
        var j :| 0 <= j < n && s[j].cell == s[n].cell;
        assert p[j] == s[j];
        CellSetMembers(p, s[n].cell);
      }
    }
  }

  /** No two kept samples share a cell, and together they cover every cell
      of the input. */
  lemma {:induction false} FirstOccurrencesDistinct(s: seq<Sample>)
    ensures Distinct(FirstOccurrences(s))
    ensures CellSet(FirstOccurrences(s)) == CellSet(s)
    decreases |s|
  {
    FirstOccurrencesCells(s);
    if |s| > 0 {
      var n := |s| - 1;
      var p := s[..n];
      FirstOccurrencesDistinct(p);
      FirstOccurrencesLast(s);
      if IsFirst(s, n) {
        FirstIffUnseen(s, n);
        DistinctSnoc(FirstOccurrences(p), s[n]);
      }
    }
  }

  /** A list without repeated cells is its own deduplication. */
  lemma {:induction false} DistinctIsFixed(s: seq<Sample>)
    requires Distinct(s)
    ensures FirstOccurrences(s) == s
    decreases |s|
  {
    if |s| > 0 {
      var n := |s| - 1;
      assert Distinct(s[..n]) by {
        assert forall a :: 0 <= a < n ==> s[..n][a] == s[a];
      }
      DistinctIsFixed(s[..n]);
      assert IsFirst(s, n);
      assert s[..n] + [s[n]] == s;
    }
  }

  /** Deduplicating twice is deduplicating once. */
  lemma DedupIdempotent(s: seq<Sample>)
    ensures Dedup(Dedup(s)) == Dedup(s)
  {
    DedupIsFirstOccurrences(s);
    DedupIsFirstOccurrences(Dedup(s));
    FirstOccurrencesDistinct(s);
    DistinctIsFixed(FirstOccurrences(s));
  }

  /** The deduplicated list has one sample per distinct cell of the input. */
  lemma {:induction false} DistinctSize(s: seq<Sample>)
    requires Distinct(s)
    ensures |CellSet(s)| == |s|
    decreases |s|
  {
    if |s| > 0 {
      var n := |s| - 1;
      assert Distinct(s[..n]) by {
        assert forall a :: 0 <= a < n ==> s[..n][a] == s[a];
      }
      DistinctSize(s[..n]);
      CellSetMembers(s[..n], s[n].cell);
      assert forall i :: 0 <= i < n ==> s[..n][i] == s[i];
      assert CellSet(s) == CellSet(s[..n]) + {s[n].cell};
    }
  }

  lemma DedupSize(s: seq<Sample>)
    ensures |Dedup(s)| == |CellSet(s)| <= |s|
  {
    DedupIsFirstOccurrences(s);
    FirstOccurrencesDistinct(s);
    DistinctSize(FirstOccurrences(s));
    FirstOccurrencesShorter(s);
  }

  lemma {:induction false} FirstOccurrencesShorter(s: seq<Sample>)
    ensures |FirstOccurrences(s)| <= |s|
    decreases |s|
  {
    if |s| > 0 {
      FirstOccurrencesShorter(s[..|s| - 1]);
    }
  }

  // ---------------------------------------------------------------------
  // Shift by the minimum, filter and pack
  // ---------------------------------------------------------------------

  /** `MinBy(t => t.<axis>).<axis>`: the smallest coordinate on one axis. */
  function MinOnAxis(cells: seq<Cell>, a: Axis): (m: int)
    requires |cells| > 0
    ensures forall k :: 0 <= k < |cells| ==> m <= Coordinate(cells[k], a)
    ensures exists k :: 0 <= k < |cells| && m == Coordinate(cells[k], a)
  {
    if |cells| == 1 then Coordinate(cells[0], a)
    else
      var rest := MinOnAxis(cells[1..], a);
      assert forall k :: 1 <= k < |cells| ==> cells[1..][k - 1] == cells[k];
      if Coordinate(cells[0], a) <= rest then Coordinate(cells[0], a) else rest
  }

  /** `MaxBy(t => t.<axis>).<axis>`: the largest coordinate on one axis. */
  function MaxOnAxis(cells: seq<Cell>, a: Axis): (m: int)
    requires |cells| > 0
    ensures forall k :: 0 <= k < |cells| ==> Coordinate(cells[k], a) <= m
    ensures exists k :: 0 <= k < |cells| && m == Coordinate(cells[k], a)
  {
    if |cells| == 1 then Coordinate(cells[0], a)
    else
      var rest := MaxOnAxis(cells[1..], a);
      assert forall k :: 1 <= k < |cells| ==> cells[1..][k - 1] == cells[k];
      if Coordinate(cells[0], a) >= rest then Coordinate(cells[0], a) else rest
  }

  function Min(a: int, b: int): int {
    if a <= b then a else b
  }

  function Max(a: int, b: int): int {
    if a >= b then a else b
  }

  /** The cells of a sample list, in order. */
  function Cells(s: seq<Sample>): (cells: seq<Cell>)
    ensures |cells| == |s|
    ensures forall k :: 0 <= k < |s| ==> cells[k] == s[k].cell
  {
    if |s| == 0 then [] else [s[0].cell] + Cells(s[1..])
  }

  /** Line 533: `min` of the three per-axis minima. */
  function MinCoordinate(cells: seq<Cell>): int
    requires |cells| > 0
  {
    Min(MinOnAxis(cells, X), Min(MinOnAxis(cells, Y), MinOnAxis(cells, Z)))
  }

  /** The overall minimum bounds every coordinate of every cell and is one
      of them. */
  lemma MinCoordinateIsLeast(cells: seq<Cell>)
    requires |cells| > 0
    ensures forall k, a :: 0 <= k < |cells| ==> MinCoordinate(cells) <= Coordinate(cells[k], a)
    ensures exists k, a :: 0 <= k < |cells| && MinCoordinate(cells) == Coordinate(cells[k], a)
  {
    var m := MinCoordinate(cells);
    forall k, a | 0 <= k < |cells|
      ensures m <= Coordinate(cells[k], a)
    {
      assert MinOnAxis(cells, a) <= Coordinate(cells[k], a);
    }
    if m == MinOnAxis(cells, X) {
      var k :| 0 <= k < |cells| && m == Coordinate(cells[k], X);
    } else if m == MinOnAxis(cells, Y) {
      var k :| 0 <= k < |cells| && m == Coordinate(cells[k], Y);
    } else {
      var k :| 0 <= k < |cells| && m == Coordinate(cells[k], Z);
    }
  }

  const Opaque: Byte := 255

  /** `(uint)((A << 24) | (R << 16) | (G << 8) | B)` on 32-bit signed ints.
      The four fields occupy disjoint bits, so the or is a sum; with A = 255
      the sum exceeds `int.MaxValue`, wraps to a negative `int`, and the cast
      to `uint` takes it back modulo 2^32, so no bit is lost. */
  function PackArgb(a: Byte, r: Byte, g: Byte, b: Byte): (col: nat)
    ensures col == ((a * 0x100 + r) * 0x100 + g) * 0x100 + b
  {
    var bits := a * 0x100_0000 + r * 0x1_0000 + g * 0x100 + b;
    var signed := if bits >= 0x8000_0000 then bits - 0x1_0000_0000 else bits;
    if signed < 0 then signed + 0x1_0000_0000 else signed
  }

  /** The low byte and the rest of a word with a byte appended. */
  lemma SplitLowByte(hi: nat, lo: Byte)
    ensures (hi * 0x100 + lo) % 0x100 == lo
    ensures (hi * 0x100 + lo) / 0x100 == hi
  {
  }

  /** Reading the channels back out of a packed colour gives them unchanged,
      and the word fits in 32 bits. */
  lemma UnpackArgb(a: Byte, r: Byte, g: Byte, b: Byte)
    ensures PackArgb(a, r, g, b) < 0x1_0000_0000
    ensures PackArgb(a, r, g, b) % 0x100 == b
    ensures PackArgb(a, r, g, b) / 0x100 % 0x100 == g
    ensures PackArgb(a, r, g, b) / 0x100 / 0x100 % 0x100 == r
    ensures PackArgb(a, r, g, b) / 0x100 / 0x100 / 0x100 == a
  {
    SplitLowByte((a * 0x100 + r) * 0x100 + g, b);
    SplitLowByte(a * 0x100 + r, g);
    SplitLowByte(a, r);
  }

  /** Distinct colours pack to distinct words. */
  lemma PackInjective(c: Rgb, d: Rgb)
    requires PackArgb(Opaque, c.r, c.g, c.b) == PackArgb(Opaque, d.r, d.g, d.b)
    ensures c == d
  {
    UnpackArgb(Opaque, c.r, c.g, c.b);
    UnpackArgb(Opaque, d.r, d.g, d.b);
  }

  /** A cell moved by `-d` on every axis. */
  function Translate(c: Cell, d: int): Cell {
    Cell(c.x - d, c.y - d, c.z - d)
  }

  lemma TranslateCoordinate(c: Cell, d: int, a: Axis)
    ensures Coordinate(Translate(c, d), a) == Coordinate(c, a) - d
  {
  }

  /** The block a sample becomes once `min` is subtracted (lines 535-539). */
  function Place(s: Sample, min: int): Block {
    Block(Translate(s.cell, min), PackArgb(Opaque, s.color.r, s.color.g, s.color.b))
  }

  /** Lines 534-541 from index `i` on: the `max - min >= 0` test guards each sample. */
  function NormaliseFrom(s: seq<Sample>, i: nat, min: int): seq<Block>
    requires i <= |s|
    decreases |s| - i
  {
    if i == |s| then []
    else
      var c := s[i].cell;
      var max := Max(c.x, Max(c.y, c.z));
      if max - min >= 0 then [Place(s[i], min)] + NormaliseFrom(s, i + 1, min)
      else NormaliseFrom(s, i + 1, min)
  }

  /** When `min` bounds the x coordinates the filter keeps every sample:
      block `k` is sample `k` shifted, with its colour packed. */
  lemma {:induction false} NormaliseFromKeepsAll(s: seq<Sample>, i: nat, min: int)
    requires i <= |s|
    requires forall k :: 0 <= k < |s| ==> min <= s[k].cell.x
    ensures |NormaliseFrom(s, i, min)| == |s| - i
    ensures forall k :: i <= k < |s| ==> NormaliseFrom(s, i, min)[k - i] == Place(s[k], min)
    decreases |s| - i
  {
    if i < |s| {
      NormaliseFromKeepsAll(s, i + 1, min);
      var rest := NormaliseFrom(s, i + 1, min);
      assert Max(s[i].cell.x, Max(s[i].cell.y, s[i].cell.z)) - min >= 0;
      assert NormaliseFrom(s, i, min) == [Place(s[i], min)] + rest;
      forall k | i < k < |s|
        ensures NormaliseFrom(s, i, min)[k - i] == Place(s[k], min)
      {
        assert NormaliseFrom(s, i, min)[k - i] == rest[k - (i + 1)];
      }
    }
  }

  /** Lines 529-541: shift every sample by the smallest coordinate of all of
      them. The filter keeps every sample, and block `k` is sample `k`
      shifted, with its colour packed. */
  function Normalise(s: seq<Sample>): (blocks: seq<Block>)
    requires |s| > 0
    ensures |blocks| == |s|
    ensures forall k :: 0 <= k < |s| ==> blocks[k] == Place(s[k], MinCoordinate(Cells(s)))
  {
    var min := MinCoordinate(Cells(s));
    MinCoordinateIsLeast(Cells(s));
    assert forall k :: 0 <= k < |s| ==> min <= Coordinate(Cells(s)[k], X);
    NormaliseFromKeepsAll(s, 0, min);
    NormaliseFrom(s, 0, min)
  }

  /** After the shift every block coordinate is at least zero and some
      coordinate is exactly zero: the shift is the least that makes the
      cloud non-negative. */
  lemma NormaliseShiftsToOrigin(s: seq<Sample>)
    requires |s| > 0
    ensures forall k, a :: 0 <= k < |s| ==> Coordinate(Normalise(s)[k].pos, a) >= 0
    ensures exists k, a :: 0 <= k < |s| && Coordinate(Normalise(s)[k].pos, a) == 0
  {
    var cells := Cells(s);
    var min := MinCoordinate(cells);
    var blocks := Normalise(s);
    MinCoordinateIsLeast(cells);
    forall k, a | 0 <= k < |s|
      ensures Coordinate(blocks[k].pos, a) >= 0
    {
      assert blocks[k] == Place(s[k], min);
      TranslateCoordinate(cells[k], min, a);
    }
    var k, a :| 0 <= k < |cells| && min == Coordinate(cells[k], a);
    assert blocks[k] == Place(s[k], min);
    TranslateCoordinate(cells[k], min, a);
  }

  /** Shifting keeps distinct cells apart, so deduplicated samples give
      blocks at distinct positions. */
  lemma NormaliseKeepsDistinct(s: seq<Sample>)
    requires |s| > 0 && Distinct(s)
    ensures forall p, q :: 0 <= p < q < |s| ==> Normalise(s)[p].pos != Normalise(s)[q].pos
  {
    var blocks := Normalise(s);
    forall p, q | 0 <= p < q < |s|
      ensures blocks[p].pos != blocks[q].pos
    {
      assert blocks[p] == Place(s[p], MinCoordinate(Cells(s)));
      assert blocks[q] == Place(s[q], MinCoordinate(Cells(s)));
    }
  }

  // ---------------------------------------------------------------------
  // Extents
  // ---------------------------------------------------------------------

  function Positions(blocks: seq<Block>): (cells: seq<Cell>)
    ensures |cells| == |blocks|
    ensures forall k :: 0 <= k < |blocks| ==> cells[k] == blocks[k].pos
  {
    if |blocks| == 0 then [] else [blocks[0].pos] + Positions(blocks[1..])
  }

  /** Length, width and height of a schematic, in that order. */
  datatype Extents = Extents(length: nat, width: nat, height: nat)

  function Abs(v: int): nat {
    if v < 0 then -v else v
  }

  /** One side of the bounding box: `|max - min|` on an axis. */
  function Span(cells: seq<Cell>, a: Axis): nat
    requires |cells| > 0
  {
    Abs(MaxOnAxis(cells, a) - MinOnAxis(cells, a))
  }

  /** `span` is the tight bound on the distance between two cells on axis
      `a`: no pair is further apart, and some pair is exactly that far. */
  ghost predicate TightOn(cells: seq<Cell>, a: Axis, span: nat) {
    && (forall p, q :: 0 <= p < |cells| && 0 <= q < |cells| ==>
          Abs(Coordinate(cells[p], a) - Coordinate(cells[q], a)) <= span)
    && (exists p, q :: 0 <= p < |cells| && 0 <= q < |cells| &&
          Abs(Coordinate(cells[p], a) - Coordinate(cells[q], a)) == span)
  }

  /** Lines 553-564: `MinBy` and `MaxBy` fail on an empty block list;
      otherwise Length is the tight bound of the block positions on the Z
      axis, Width on X and Height on Y. */
  function SchematicExtents(blocks: seq<Block>): (r: Result<Extents>)
    ensures r.Err? <==> |blocks| == 0
    ensures r.Err? ==> r.error == EmptyPointSet
    ensures r.Ok? ==> var cells := Positions(blocks);
                      TightOn(cells, Z, r.value.length) && TightOn(cells, X, r.value.width) && TightOn(cells, Y, r.value.height)
  {
    if |blocks| == 0 then Err(EmptyPointSet)
    else
      var cells := Positions(blocks);
      SpanIsTight(cells, Z);
      SpanIsTight(cells, X);
      SpanIsTight(cells, Y);
      Ok(Extents(Span(cells, Z), Span(cells, X), Span(cells, Y)))
  }

  /** The span on an axis is the tight bound on the distance between two
      cells on that axis: no pair is further apart, and some pair is exactly
      that far apart. */
  lemma SpanIsTight(cells: seq<Cell>, a: Axis)
    requires |cells| > 0
    ensures TightOn(cells, a, Span(cells, a))
  {
    var lo, hi := MinOnAxis(cells, a), MaxOnAxis(cells, a);
    forall p, q | 0 <= p < |cells| && 0 <= q < |cells|
      ensures Abs(Coordinate(cells[p], a) - Coordinate(cells[q], a)) <= Span(cells, a)
    {
      assert lo <= Coordinate(cells[p], a) <= hi;
      assert lo <= Coordinate(cells[q], a) <= hi;
    }
    var p :| 0 <= p < |cells| && hi == Coordinate(cells[p], a);
    var q :| 0 <= q < |cells| && lo == Coordinate(cells[q], a);
  }
}
