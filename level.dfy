/** A level: its rows, the memoised dimensions and the moving platforms found when it loads. */
module Levels {
  import opened CellTypes
  import opened Grid
  import opened Extraction
  import Text

  /** The sweep's bounds: the cached dimensions if set, otherwise those of the rows. */
  function SweepBounds(dims: Option<(nat, nat)>, rows: seq<string>): (nat, nat)
    requires |rows| >= 1
  {
    if dims.Some? then dims.value else (Width(rows), |rows| - 1)
  }

  class Level {
    const id: string
    var dims: Option<(nat, nat)>
    var rawData: Option<string>
    var initialized: bool
    var lines: seq<string>
    var movingPlatforms: seq<MovingPlatform>

    /** The rows are split text, never empty, once loaded; before that nothing is cached. */
    ghost predicate Valid()
      reads this
    {
      (initialized ==> |lines| >= 1) &&
      (!initialized ==> dims == None)
    }

    constructor(id: string)
      ensures Valid() && this.id == id
      ensures dims == None && rawData == None && !initialized && lines == [] && movingPlatforms == []
    {
      this.id := id;
      dims := None;
      rawData := None;
      initialized := false;
      lines := [];
      movingPlatforms := [];
    }

    /** The cell at (x, y): total, and AIR anywhere outside the loaded rows or past the end of a short row. */
    function GetCell(x: int, y: int): (c: char)
      reads this
      ensures 0 <= y < |lines| && 0 <= x < |lines[y]| ==> c == lines[y][x]
      ensures !(0 <= y < |lines| && 0 <= x < |lines[y]|) ==> c == AIR
    {
      CellAt(lines, x, y)
    }

    /** [width, height], computed on the first read and cached from then on. */
    method Dimensions() returns (d: (nat, nat))
      requires Valid() && initialized
      modifies this`dims
      ensures Valid()
      ensures old(dims).Some? ==> d == old(dims).value && dims == old(dims)
      ensures old(dims).None? ==> d == (Width(lines), |lines| - 1) && dims == Some(d)
    {
      if dims.Some? {
        return dims.value;
      }
      var height := |lines| - 1;
      var width := Width(lines);
      dims := Some((width, height));
      d := (width, height);
    }

    /** Walk left from (x, y) to the nearest horizontal boundary. */
    method WalkLeft(x: int, y: int) returns (left: int)
      requires HasAtOrBefore(Row(lines, y), x, H_BOUNDARY)
      ensures left == NearestAtOrBefore(Row(lines, y), x, H_BOUNDARY)
    {
      ghost var row := Row(lines, y);
      left := x;
      while GetCell(left, y) != H_BOUNDARY
        invariant HasAtOrBefore(row, left, H_BOUNDARY)
        invariant NearestAtOrBefore(row, left, H_BOUNDARY) == NearestAtOrBefore(row, x, H_BOUNDARY)
        decreases left
      {
        BackwardStep(row, left, H_BOUNDARY);
        left := left - 1;
      }
      BackwardStop(row, left, H_BOUNDARY);
    }

    /** Walk right from (x, y) to the nearest horizontal boundary. */
    method WalkRight(x: int, y: int) returns (right: int)
      requires HasAtOrAfter(Row(lines, y), x, H_BOUNDARY)
      ensures right == NearestAtOrAfter(Row(lines, y), x, H_BOUNDARY)
    {
      ghost var row := Row(lines, y);
      right := x;
      while GetCell(right, y) != H_BOUNDARY
        invariant HasAtOrAfter(row, right, H_BOUNDARY)
        invariant NearestAtOrAfter(row, right, H_BOUNDARY) == NearestAtOrAfter(row, x, H_BOUNDARY)
        decreases |row| - right
      {
        ForwardStep(row, right, H_BOUNDARY);
        right := right + 1;
      }
      ForwardStop(row, right, H_BOUNDARY);
    }

    /** Walk up from (x, y) to the nearest vertical boundary. */
    method WalkUp(x: int, y: int) returns (top: int)
      requires HasAtOrBefore(Column(lines, x), y, V_BOUNDARY)
      ensures top == NearestAtOrBefore(Column(lines, x), y, V_BOUNDARY)
    {
      ghost var column := Column(lines, x);
      top := y;
      while GetCell(x, top) != V_BOUNDARY
        invariant HasAtOrBefore(column, top, V_BOUNDARY)
        invariant NearestAtOrBefore(column, top, V_BOUNDARY) == NearestAtOrBefore(column, y, V_BOUNDARY)
        decreases top
      {
        BackwardStep(column, top, V_BOUNDARY);
        top := top - 1;
      }
      BackwardStop(column, top, V_BOUNDARY);
    }

    /** Walk down from (x, y) to the nearest vertical boundary. */
    method WalkDown(x: int, y: int) returns (bottom: int)
      requires HasAtOrAfter(Column(lines, x), y, V_BOUNDARY)
      ensures bottom == NearestAtOrAfter(Column(lines, x), y, V_BOUNDARY)
    {
      ghost var column := Column(lines, x);
      bottom := y;
      while GetCell(x, bottom) != V_BOUNDARY
        invariant HasAtOrAfter(column, bottom, V_BOUNDARY)
        invariant NearestAtOrAfter(column, bottom, V_BOUNDARY) == NearestAtOrAfter(column, y, V_BOUNDARY)
        decreases |column| - bottom
      {
        ForwardStep(column, bottom, V_BOUNDARY);
        bottom := bottom + 1;
      }
      ForwardStop(column, bottom, V_BOUNDARY);
    }

    /** Turn the GROUND cell at (x, y) into a moving platform if a connector touches it. */
    method ExtractMovingPlatform(x: int, y: int)
      requires Valid()
      requires CanScan(lines, x, y)
      modifies this`lines, this`movingPlatforms
      ensures Valid()
      ensures lines == ExtractAt(old(lines), x, y)
      ensures movingPlatforms == old(movingPlatforms) + Extracted(old(lines), x, y)
    {
      if GetCell(x, y) != GROUND {
        return;
      }
      if GetCell(x - 1, y) == H_CONNECTOR || GetCell(x + 1, y) == H_CONNECTOR {
        ExtractHorizontal(x, y);
      } else if GetCell(x, y - 1) == V_CONNECTOR || GetCell(x, y + 1) == V_CONNECTOR {
        ExtractVertical(x, y);
      }
    }

    /** The horizontal branch: blank the cell, walk left and right to the nearest '/', record the platform. */
    method ExtractHorizontal(x: int, y: int)
      requires AxisAt(lines, x, y) == Some(Horizontal) && CanScan(lines, x, y)
      modifies this`lines, this`movingPlatforms
      ensures lines == ExtractAt(old(lines), x, y)
      ensures movingPlatforms == old(movingPlatforms) + Extracted(old(lines), x, y)
    {
      ghost var g := lines;
      lines := lines[y := Replace(lines[y], x)];
      RowWalksAfterBlanking(g, x, y);
      var left := WalkLeft(x - 1, y);
      var right := WalkRight(x + 1, y);
      movingPlatforms := movingPlatforms + [MovingPlatform(Coord(left, y), Coord(right, y), Coord(x, y), true)];
    }

    /** The vertical branch: blank the cell, walk up and down to the nearest '_', record the platform. */
    method ExtractVertical(x: int, y: int)
      requires AxisAt(lines, x, y) == Some(Vertical) && CanScan(lines, x, y)
      modifies this`lines, this`movingPlatforms
      ensures lines == ExtractAt(old(lines), x, y)
      ensures movingPlatforms == old(movingPlatforms) + Extracted(old(lines), x, y)
    {
      ghost var g := lines;
      lines := lines[y := Replace(lines[y], x)];
      ColumnWalksAfterBlanking(g, x, y);
      var top := WalkUp(x, y - 1);
      var bottom := WalkDown(x, y + 1);
      movingPlatforms := movingPlatforms + [MovingPlatform(Coord(x, top), Coord(x, bottom), Coord(x, y), true)];
    }

    /** The inner loop of the load-time sweep: extract platforms from cells 0 .. w - 1 of row y, left to right. */
    method ExtractRow(y: nat, w: nat, ghost g: seq<string>)
      requires Valid()
      requires forall i :: 0 <= i < w ==> CanScan(g, i, y)
      requires lines == Erased(g, w, y, 0)
      modifies this`lines, this`movingPlatforms
      ensures Valid()
      ensures lines == Erased(g, w, y + 1, 0)
      ensures movingPlatforms == old(movingPlatforms) + RowSweep(g, y, w)
    {
      var x := 0;
      while x < w
        invariant 0 <= x <= w
        invariant Valid()
        invariant lines == Erased(g, w, y, x)
        invariant movingPlatforms == old(movingPlatforms) + RowSweep(g, y, x)
      {
        ghost var l, ps := lines, movingPlatforms;
        ErasedStepScans(g, w, y, x);
        ExtractMovingPlatform(x, y);
        SweepCellStep(g, w, y, x, l, lines, old(movingPlatforms), ps, movingPlatforms);
        x := x + 1;
      }
      ErasedRowEnd(g, w, y);
    }

    /** Load the level from its text: split it into rows, then extract platforms from every cell in row-major order. */
    method Initialize(text: string)
      requires Valid()
      requires var rows := Text.Split(text, '\n');
        SweepCanScan(rows, SweepBounds(dims, rows).0, SweepBounds(dims, rows).1)
      modifies this`rawData, this`lines, this`initialized, this`dims, this`movingPlatforms
      ensures Valid() && initialized && rawData == Some(text)
      ensures dims == Some(SweepBounds(old(dims), Text.Split(text, '\n')))
      ensures lines == Erased(Text.Split(text, '\n'), SweepBounds(old(dims), Text.Split(text, '\n')).0,
                              SweepBounds(old(dims), Text.Split(text, '\n')).1, 0)
      ensures movingPlatforms == old(movingPlatforms) +
                Sweep(Text.Split(text, '\n'), SweepBounds(old(dims), Text.Split(text, '\n')).0,
                      SweepBounds(old(dims), Text.Split(text, '\n')).1)
    {
      var rows := Text.Split(text, '\n');
      ghost var bounds := SweepBounds(dims, rows);
      assert SweepCanScan(rows, bounds.0, bounds.1);
      rawData := Some(text);
      lines := rows;
      initialized := true;
      var d := Dimensions();
      assert d == bounds;
      ErasedNothing(rows, d.0);
      ExtractAll(d.0, d.1, rows);
      assert bounds == SweepBounds(old(dims), Text.Split(text, '\n'));
    }

    /** The load-time sweep: extract platforms from every cell of [0, w) x [0, h), row by row. */
    method ExtractAll(w: nat, h: nat, ghost g: seq<string>)
      requires Valid()
      requires SweepCanScan(g, w, h) && lines == Erased(g, w, 0, 0)
      modifies this`lines, this`movingPlatforms
      ensures Valid()
      ensures lines == Erased(g, w, h, 0)
      ensures movingPlatforms == old(movingPlatforms) + Sweep(g, w, h)
    {
      var y := 0;
      while y < h
        invariant 0 <= y <= h
        invariant Valid()
        invariant lines == Erased(g, w, y, 0)
        invariant movingPlatforms == old(movingPlatforms) + Sweep(g, w, y)
      {
        ghost var ps := movingPlatforms;
        SweepRowStep(g, w, h, y, old(movingPlatforms), ps, ps + RowSweep(g, y, w));
        ExtractRow(y, w, g);
        y := y + 1;
      }
    }
  }

  /** After a horizontally connected cell is blanked, the walks along its row terminate and find the same
      boundaries as on the rows before. */
  lemma RowWalksAfterBlanking(g: seq<string>, x: int, y: int)
    requires CellAt(g, x, y) == GROUND
    requires HasAtOrBefore(Row(g, y), x - 1, H_BOUNDARY) && HasAtOrAfter(Row(g, y), x + 1, H_BOUNDARY)
    ensures var r, r0 := Row(g[y := Replace(g[y], x)], y), Row(g, y);
      HasAtOrBefore(r, x - 1, H_BOUNDARY) && HasAtOrAfter(r, x + 1, H_BOUNDARY) &&
      NearestAtOrBefore(r, x - 1, H_BOUNDARY) == NearestAtOrBefore(r0, x - 1, H_BOUNDARY) &&
      NearestAtOrAfter(r, x + 1, H_BOUNDARY) == NearestAtOrAfter(r0, x + 1, H_BOUNDARY)
  {
    RowMarksAfterBlanking(g, x, y);
    SameMarksSameWalks(Row(g[y := Replace(g[y], x)], y), Row(g, y), H_BOUNDARY, x - 1, x + 1);
  }

  /** Blanking a cell keeps every horizontal boundary mark of its row. */
  lemma RowMarksAfterBlanking(g: seq<string>, x: int, y: int)
    requires CellAt(g, x, y) == GROUND
    ensures forall k :: (At(Row(g[y := Replace(g[y], x)], y), k) == H_BOUNDARY) <==> (At(Row(g, y), k) == H_BOUNDARY)
  {
    var r, r0 := Row(g[y := Replace(g[y], x)], y), Row(g, y);
    assert r == Replace(g[y], x) && r0 == g[y];
    SameMarksOffOne(r, r0, x, H_BOUNDARY);
  }

  /** After a vertically connected cell is blanked, the walks along its column terminate and find the same
      boundaries as on the rows before. */
  lemma ColumnWalksAfterBlanking(g: seq<string>, x: int, y: int)
    requires CellAt(g, x, y) == GROUND
    requires HasAtOrBefore(Column(g, x), y - 1, V_BOUNDARY) && HasAtOrAfter(Column(g, x), y + 1, V_BOUNDARY)
    ensures var c, c0 := Column(g[y := Replace(g[y], x)], x), Column(g, x);
      HasAtOrBefore(c, y - 1, V_BOUNDARY) && HasAtOrAfter(c, y + 1, V_BOUNDARY) &&
      NearestAtOrBefore(c, y - 1, V_BOUNDARY) == NearestAtOrBefore(c0, y - 1, V_BOUNDARY) &&
      NearestAtOrAfter(c, y + 1, V_BOUNDARY) == NearestAtOrAfter(c0, y + 1, V_BOUNDARY)
  {
    ColumnMarksAfterBlanking(g, x, y);
    SameMarksSameWalks(Column(g[y := Replace(g[y], x)], x), Column(g, x), V_BOUNDARY, y - 1, y + 1);
  }

  /** Blanking a cell keeps every vertical boundary mark of its column. */
  lemma ColumnMarksAfterBlanking(g: seq<string>, x: int, y: int)
    requires CellAt(g, x, y) == GROUND
    ensures forall k :: (At(Column(g[y := Replace(g[y], x)], x), k) == V_BOUNDARY) <==> (At(Column(g, x), k) == V_BOUNDARY)
  {
    var l := g[y := Replace(g[y], x)];
    var c, c0 := Column(l, x), Column(g, x);
    forall k | 0 <= k < |c| && k != y ensures c[k] == c0[k] {
      assert At(c, k) == CellAt(l, x, k) && At(c0, k) == CellAt(g, x, k);
    }
    assert At(c, y) == CellAt(l, x, y) && At(c0, y) == CellAt(g, x, y);
    SameMarksOffOne(c, c0, y, V_BOUNDARY);
  }

  /** Two strings equal except at position i, where neither holds b, hold b at the same positions. */
  lemma SameMarksOffOne(s: string, t: string, i: int, b: char)
    requires |s| == |t| && b != AIR && At(s, i) != b && At(t, i) != b
    requires forall k :: 0 <= k < |s| && k != i ==> s[k] == t[k]
    ensures forall k :: (At(s, k) == b) <==> (At(t, k) == b)
  {
  }
}
