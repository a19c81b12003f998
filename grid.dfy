/** The level grid: rows of text, cell lookup, width, and the geometry of one moving platform. */
module Grid {
  import opened CellTypes

  datatype Option<T> = None | Some(value: T)

  /** A grid coordinate, written [x, y] by the level code. */
  datatype Coord = Coord(x: int, y: int)

  /** A platform that travels between two boundary cells; it starts out moving towards end. */
  datatype MovingPlatform = MovingPlatform(start: Coord, end: Coord, curr: Coord, towardsEnd: bool)

  /** The axis a GROUND cell's platform moves along. */
  datatype Axis = Horizontal | Vertical

  /** The cell at (x, y): AIR left of or above the grid, below the last row, or past the end of a short row. */
  function CellAt(rows: seq<string>, x: int, y: int): (c: char)
    ensures 0 <= y < |rows| && 0 <= x < |rows[y]| ==> c == rows[y][x]
    ensures !(0 <= y < |rows| && 0 <= x < |rows[y]|) ==> c == AIR
  {
    if x < 0 || y < 0 || y >= |rows| then AIR
    else if x >= |rows[y]| then AIR
    else rows[y][x]
  }

  /** The longest row length, folded from the left like the level code's max-reduce. */
  function Width(rows: seq<string>): (w: nat)
    ensures forall j :: 0 <= j < |rows| ==> |rows[j]| <= w
    ensures |rows| > 0 ==> exists j :: 0 <= j < |rows| && |rows[j]| == w
  {
    if |rows| == 0 then 0
    else
      var rest := Width(rows[..|rows| - 1]);
      var last := |rows[|rows| - 1]|;
      if rest >= last then rest else last
  }

  /** Every cell outside [0, Width) x [0, |rows|) is AIR. */
  lemma OutsideIsAir(rows: seq<string>, x: int, y: int)
    requires !(0 <= x < Width(rows) && 0 <= y < |rows|)
    ensures CellAt(rows, x, y) == AIR
  {
  }

  /** Width only depends on the row lengths. */
  lemma {:induction false} WidthOfSameLengths(a: seq<string>, b: seq<string>)
    requires |a| == |b|
    requires forall j :: 0 <= j < |a| ==> |a[j]| == |b[j]|
    ensures Width(a) == Width(b)
  {
    if |a| > 0 {
      WidthOfSameLengths(a[..|a| - 1], b[..|b| - 1]);
    }
  }

  /** JavaScript's s.substr(start, length): a negative start counts from the end, both ends are clamped. */
  function Substr(s: string, start: int, length: int): (r: string)
    ensures |r| <= |s|
    ensures 0 <= start <= |s| && length >= 0 ==>
              r == s[start..if start + length > |s| then |s| else start + length]
  {
    var from := if start < 0 then (if |s| + start < 0 then 0 else |s| + start)
                else if start > |s| then |s| else start;
    var upto := if length <= 0 then from else if from + length > |s| then |s| else from + length;
    s[from..upto]
  }

  /** The row with AIR written over column x: line.substr(0, x) + ' ' + line.substr(x + 1). */
  function Replace(line: string, x: int): (r: string)
    ensures 0 <= x < |line| ==> |r| == |line| && r[x] == AIR
    ensures 0 <= x < |line| ==> forall k :: 0 <= k < |line| && k != x ==> r[k] == line[k]
  {
    var r := Substr(line, 0, x) + [AIR] + Substr(line, x + 1, |line|);
    assert 0 <= x < |line| ==> r == line[..x] + [AIR] + line[x + 1..];
    r
  }

  /** A sequence read with AIR outside its bounds. */
  function At(s: string, k: int): char
  {
    if 0 <= k < |s| then s[k] else AIR
  }

  /** Row y of the grid, read left to right. */
  function Row(rows: seq<string>, y: int): (r: string)
    ensures forall k :: At(r, k) == CellAt(rows, k, y)
  {
    if 0 <= y < |rows| then rows[y] else ""
  }

  /** Column x of the grid, read top to bottom. */
  function Column(rows: seq<string>, x: int): (c: string)
    ensures |c| == |rows|
    ensures forall k :: At(c, k) == CellAt(rows, x, k)
  {
    seq(|rows|, j requires 0 <= j < |rows| => CellAt(rows, x, j))
  }

  ghost predicate HasAtOrBefore(s: string, i: int, b: char)
  {
    exists l :: 0 <= l <= i && l < |s| && s[l] == b
  }

  ghost predicate HasAtOrAfter(s: string, i: int, b: char)
  {
    exists r :: i <= r < |s| && 0 <= r && s[r] == b
  }

  /** The last b at or before position i: the left and top boundary walks. */
  function NearestAtOrBefore(s: string, i: int, b: char): (l: int)
    requires b != AIR && HasAtOrBefore(s, i, b)
    ensures 0 <= l <= i && l < |s| && s[l] == b
    ensures forall k :: l < k <= i ==> At(s, k) != b
    decreases i
  {
    if i < |s| && s[i] == b then i else NearestAtOrBefore(s, i - 1, b)
  }

  /** The first b at or after position i: the right and bottom boundary walks. */
  function NearestAtOrAfter(s: string, i: int, b: char): (r: int)
    requires b != AIR && HasAtOrAfter(s, i, b)
    ensures i <= r < |s| && 0 <= r && s[r] == b
    ensures forall k :: i <= k < r ==> At(s, k) != b
    decreases |s| - i
  {
    if 0 <= i && s[i] == b then i else NearestAtOrAfter(s, i + 1, b)
  }

  /** One step of the backward walk past a cell that is not b. */
  lemma BackwardStep(s: string, i: int, b: char)
    requires b != AIR && HasAtOrBefore(s, i, b) && At(s, i) != b
    ensures HasAtOrBefore(s, i - 1, b) && NearestAtOrBefore(s, i - 1, b) == NearestAtOrBefore(s, i, b)
  {
  }

  /** The backward walk stops at the first b it sees. */
  lemma BackwardStop(s: string, i: int, b: char)
    requires b != AIR && At(s, i) == b
    ensures HasAtOrBefore(s, i, b) && NearestAtOrBefore(s, i, b) == i
  {
  }

  /** One step of the forward walk past a cell that is not b. */
  lemma ForwardStep(s: string, i: int, b: char)
    requires b != AIR && HasAtOrAfter(s, i, b) && At(s, i) != b
    ensures HasAtOrAfter(s, i + 1, b) && NearestAtOrAfter(s, i + 1, b) == NearestAtOrAfter(s, i, b)
  {
  }

  /** The forward walk stops at the first b it sees. */
  lemma ForwardStop(s: string, i: int, b: char)
    requires b != AIR && At(s, i) == b
    ensures HasAtOrAfter(s, i, b) && NearestAtOrAfter(s, i, b) == i
  {
  }

  /** Without a b at or before i the walk never stops: every position it visits differs from b. */
  lemma NoBoundaryBefore(s: string, i: int, b: char)
    requires b != AIR && !HasAtOrBefore(s, i, b)
    ensures forall k :: k <= i ==> At(s, k) != b
  {
  }

  /** Without a b at or after i the walk never stops: every position it visits differs from b. */
  lemma NoBoundaryAfter(s: string, i: int, b: char)
    requires b != AIR && !HasAtOrAfter(s, i, b)
    ensures forall k :: i <= k ==> At(s, k) != b
  {
  }

  /** Two sequences with b at the same places give the same walks. */
  lemma SameMarksSameWalks(s: string, t: string, b: char, i: int, j: int)
    requires forall k :: (At(s, k) == b) <==> (At(t, k) == b)
    requires b != AIR
    ensures HasAtOrBefore(s, i, b) <==> HasAtOrBefore(t, i, b)
    ensures HasAtOrAfter(s, j, b) <==> HasAtOrAfter(t, j, b)
    ensures HasAtOrBefore(s, i, b) ==> NearestAtOrBefore(s, i, b) == NearestAtOrBefore(t, i, b)
    ensures HasAtOrAfter(s, j, b) ==> NearestAtOrAfter(s, j, b) == NearestAtOrAfter(t, j, b)
  {
    if HasAtOrBefore(s, i, b) {
      var l := NearestAtOrBefore(s, i, b);
      assert At(s, l) == b;
    }
    if HasAtOrBefore(t, i, b) {
      var l := NearestAtOrBefore(t, i, b);
      assert At(t, l) == b;
    }
    if HasAtOrAfter(s, j, b) {
      var r := NearestAtOrAfter(s, j, b);
      assert At(s, r) == b;
    }
    if HasAtOrAfter(t, j, b) {
      var r := NearestAtOrAfter(t, j, b);
      assert At(t, r) == b;
    }
  }

  /** Which platform, if any, the cell at (x, y) spawns; a horizontal connector wins over a vertical one. */
  function AxisAt(rows: seq<string>, x: int, y: int): (a: Option<Axis>)
    ensures a.Some? ==> CellAt(rows, x, y) == GROUND
    ensures a == Some(Vertical) ==> CellAt(rows, x - 1, y) != H_CONNECTOR && CellAt(rows, x + 1, y) != H_CONNECTOR
    ensures a.Some? ==> CellAt(rows, x - 1, y) == H_CONNECTOR || CellAt(rows, x + 1, y) == H_CONNECTOR ||
                        CellAt(rows, x, y - 1) == V_CONNECTOR || CellAt(rows, x, y + 1) == V_CONNECTOR
  {
    if CellAt(rows, x, y) != GROUND then None
    else if CellAt(rows, x - 1, y) == H_CONNECTOR || CellAt(rows, x + 1, y) == H_CONNECTOR then Some(Horizontal)
    else if CellAt(rows, x, y - 1) == V_CONNECTOR || CellAt(rows, x, y + 1) == V_CONNECTOR then Some(Vertical)
    else None
  }

  /** The boundary walks from (x, y) terminate: a boundary exists on both sides along the cell's axis. */
  ghost predicate CanScan(rows: seq<string>, x: int, y: int)
  {
    match AxisAt(rows, x, y)
    case None => true
    case Some(Horizontal) =>
      HasAtOrBefore(Row(rows, y), x - 1, H_BOUNDARY) && HasAtOrAfter(Row(rows, y), x + 1, H_BOUNDARY)
    case Some(Vertical) =>
      HasAtOrBefore(Column(rows, x), y - 1, V_BOUNDARY) && HasAtOrAfter(Column(rows, x), y + 1, V_BOUNDARY)
  }

  /** The platforms spawned by the cell at (x, y): none, or one spanning the nearest boundaries. */
  function Extracted(rows: seq<string>, x: int, y: int): (ps: seq<MovingPlatform>)
    requires CanScan(rows, x, y)
    ensures |ps| <= 1 && (|ps| == 1 <==> AxisAt(rows, x, y).Some?)
    ensures |ps| == 1 ==> ps[0].curr == Coord(x, y) && ps[0].towardsEnd
  {
    match AxisAt(rows, x, y)
    case None => []
    case Some(Horizontal) =>
      var row := Row(rows, y);
      [MovingPlatform(Coord(NearestAtOrBefore(row, x - 1, H_BOUNDARY), y),
                      Coord(NearestAtOrAfter(row, x + 1, H_BOUNDARY), y), Coord(x, y), true)]
    case Some(Vertical) =>
      var column := Column(rows, x);
      [MovingPlatform(Coord(x, NearestAtOrBefore(column, y - 1, V_BOUNDARY)),
                      Coord(x, NearestAtOrAfter(column, y + 1, V_BOUNDARY)), Coord(x, y), true)]
  }

  /** The rows after extraction at (x, y): the spawning GROUND cell becomes AIR. */
  function ExtractAt(rows: seq<string>, x: int, y: int): (r: seq<string>)
    ensures |r| == |rows|
    ensures AxisAt(rows, x, y).None? ==> r == rows
  {
    if AxisAt(rows, x, y).Some? then rows[y := Replace(rows[y], x)] else rows
  }

  /** Extraction keeps the shape of the grid, changes only row y, and within it only cell x. */
  lemma ExtractAtCells(rows: seq<string>, x: int, y: int)
    ensures |ExtractAt(rows, x, y)| == |rows|
    ensures forall j :: 0 <= j < |rows| ==> |ExtractAt(rows, x, y)[j]| == |rows[j]|
    ensures forall j :: 0 <= j < |rows| && j != y ==> ExtractAt(rows, x, y)[j] == rows[j]
    ensures Width(ExtractAt(rows, x, y)) == Width(rows)
    ensures forall p, q ::
              CellAt(ExtractAt(rows, x, y), p, q) ==
              (if p == x && q == y && AxisAt(rows, x, y).Some? then AIR else CellAt(rows, p, q))
  {
    WidthOfSameLengths(ExtractAt(rows, x, y), rows);
  }

  /** A cell that is not GROUND spawns nothing and changes nothing. */
  lemma NotGroundUnchanged(rows: seq<string>, x: int, y: int)
    requires CellAt(rows, x, y) != GROUND
    ensures CanScan(rows, x, y) && Extracted(rows, x, y) == [] && ExtractAt(rows, x, y) == rows
  {
  }

  /** A GROUND cell beside a horizontal connector moves horizontally, whatever lies above or below it. */
  lemma HorizontalWins(rows: seq<string>, x: int, y: int)
    requires CellAt(rows, x, y) == GROUND
    requires CellAt(rows, x - 1, y) == H_CONNECTOR || CellAt(rows, x + 1, y) == H_CONNECTOR
    ensures AxisAt(rows, x, y) == Some(Horizontal)
  {
  }

  /** A GROUND cell with no horizontal connector beside it and a vertical one above or below moves vertically. */
  lemma VerticalWhenNoHorizontal(rows: seq<string>, x: int, y: int)
    requires CellAt(rows, x, y) == GROUND
    requires CellAt(rows, x - 1, y) != H_CONNECTOR && CellAt(rows, x + 1, y) != H_CONNECTOR
    requires CellAt(rows, x, y - 1) == V_CONNECTOR || CellAt(rows, x, y + 1) == V_CONNECTOR
    ensures AxisAt(rows, x, y) == Some(Vertical)
  {
  }

  /** A horizontal platform spans the nearest '/' left and right of its cell, with none in between. */
  lemma ExtractedHorizontal(rows: seq<string>, x: int, y: int)
    requires AxisAt(rows, x, y) == Some(Horizontal) && CanScan(rows, x, y)
    ensures |Extracted(rows, x, y)| == 1
    ensures var p := Extracted(rows, x, y)[0];
      p.curr == Coord(x, y) && p.towardsEnd &&
      p.start.y == y && p.end.y == y && p.start.x < x < p.end.x &&
      CellAt(rows, p.start.x, y) == H_BOUNDARY && CellAt(rows, p.end.x, y) == H_BOUNDARY &&
      forall k :: p.start.x < k < p.end.x ==> CellAt(rows, k, y) != H_BOUNDARY
  {
    var row := Row(rows, y);
    var l, r := NearestAtOrBefore(row, x - 1, H_BOUNDARY), NearestAtOrAfter(row, x + 1, H_BOUNDARY);
    assert At(row, l) == H_BOUNDARY && At(row, r) == H_BOUNDARY;
    forall k | l < k < r ensures CellAt(rows, k, y) != H_BOUNDARY {
      assert At(row, k) == CellAt(rows, k, y);
    }
  }

  /** A vertical platform spans the nearest '_' above and below its cell, with none in between. */
  lemma ExtractedVertical(rows: seq<string>, x: int, y: int)
    requires AxisAt(rows, x, y) == Some(Vertical) && CanScan(rows, x, y)
    ensures |Extracted(rows, x, y)| == 1
    ensures var p := Extracted(rows, x, y)[0];
      p.curr == Coord(x, y) && p.towardsEnd &&
      p.start.x == x && p.end.x == x && p.start.y < y < p.end.y &&
      CellAt(rows, x, p.start.y) == V_BOUNDARY && CellAt(rows, x, p.end.y) == V_BOUNDARY &&
      forall k :: p.start.y < k < p.end.y ==> CellAt(rows, x, k) != V_BOUNDARY
  {
    var column := Column(rows, x);
    var t, b := NearestAtOrBefore(column, y - 1, V_BOUNDARY), NearestAtOrAfter(column, y + 1, V_BOUNDARY);
    assert At(column, t) == V_BOUNDARY && At(column, b) == V_BOUNDARY;
    forall k | t < k < b ensures CellAt(rows, x, k) != V_BOUNDARY {
      assert At(column, k) == CellAt(rows, x, k);
    }
  }
}
