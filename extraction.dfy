/** The load-time sweep that extracts every moving platform, specified on the grid as first split. */
module Extraction {
  import opened CellTypes
  import opened Grid

  /** l is g with some GROUND cells turned into AIR and nothing else changed. */
  ghost predicate Erases(g: seq<string>, l: seq<string>)
  {
    |l| == |g| &&
    (forall j :: 0 <= j < |g| ==> |l[j]| == |g[j]|) &&
    (forall j, i :: 0 <= j < |g| && 0 <= i < |g[j]| ==> l[j][i] == g[j][i] || (g[j][i] == GROUND && l[j][i] == AIR))
  }

  /** Under erasure a cell keeps every symbol other than GROUND and AIR. */
  lemma ErasedCellKeepsMarks(g: seq<string>, l: seq<string>, c: char)
    requires Erases(g, l) && c != GROUND && c != AIR
    ensures forall p, q :: (CellAt(l, p, q) == c) <==> (CellAt(g, p, q) == c)
  {
  }

  /** Blanking the spawning cell is an erasure. */
  lemma ExtractAtErases(g: seq<string>, x: int, y: int)
    ensures Erases(g, ExtractAt(g, x, y))
  {
    ExtractAtCells(g, x, y);
  }

  /** Under erasure every row has its boundary marks at the same places. */
  lemma ErasedRowMarks(g: seq<string>, l: seq<string>, y: int, b: char)
    requires Erases(g, l) && b != GROUND && b != AIR
    ensures forall k :: (At(Row(l, y), k) == b) <==> (At(Row(g, y), k) == b)
  {
    ErasedCellKeepsMarks(g, l, b);
    forall k ensures (At(Row(l, y), k) == b) <==> (At(Row(g, y), k) == b) {
      assert At(Row(l, y), k) == CellAt(l, k, y) && At(Row(g, y), k) == CellAt(g, k, y);
    }
  }

  /** Under erasure every column has its boundary marks at the same places. */
  lemma ErasedColumnMarks(g: seq<string>, l: seq<string>, x: int, b: char)
    requires Erases(g, l) && b != GROUND && b != AIR
    ensures forall k :: (At(Column(l, x), k) == b) <==> (At(Column(g, x), k) == b)
  {
    ErasedCellKeepsMarks(g, l, b);
    forall k ensures (At(Column(l, x), k) == b) <==> (At(Column(g, x), k) == b) {
      assert At(Column(l, x), k) == CellAt(l, x, k) && At(Column(g, x), k) == CellAt(g, x, k);
    }
  }

  /** Erasure leaves every cell's axis, boundary walks and platform unchanged, provided the cell itself is unchanged. */
  lemma ExtractedUnderErasure(g: seq<string>, l: seq<string>, x: int, y: int)
    requires Erases(g, l) && CellAt(l, x, y) == CellAt(g, x, y) && CanScan(g, x, y)
    ensures AxisAt(l, x, y) == AxisAt(g, x, y)
    ensures CanScan(l, x, y) && Extracted(l, x, y) == Extracted(g, x, y)
  {
    ErasedCellKeepsMarks(g, l, H_CONNECTOR);
    ErasedCellKeepsMarks(g, l, V_CONNECTOR);
    ErasedRowMarks(g, l, y, H_BOUNDARY);
    ErasedColumnMarks(g, l, x, V_BOUNDARY);
    SameMarksSameWalks(Row(l, y), Row(g, y), H_BOUNDARY, x - 1, x + 1);
    SameMarksSameWalks(Column(l, x), Column(g, x), V_BOUNDARY, y - 1, y + 1);
  }

  /** How many cells of row j the sweep has visited once it stands at (x, y) on a grid of width w. */
  function Visited(j: int, w: nat, y: nat, x: nat): nat
  {
    if j < y then w else if j == y then x else 0
  }

  /** The rows once the sweep stands at (x, y): each visited cell that spawns a platform is AIR. */
  function Erased(g: seq<string>, w: nat, y: nat, x: nat): seq<string>
  {
    seq(|g|, j requires 0 <= j < |g| =>
      seq(|g[j]|, i requires 0 <= i < |g[j]| =>
        if i < Visited(j, w, y, x) && AxisAt(g, i, j).Some? then AIR else g[j][i]))
  }

  /** Every boundary walk the sweep over [0, w) x [0, h) starts terminates. */
  ghost predicate SweepCanScan(g: seq<string>, w: nat, h: nat)
  {
    forall j, i :: 0 <= j < h && 0 <= i < w ==> CanScan(g, i, j)
  }

  /** The cells of row y among 0 .. x - 1 that spawn a platform, left to right. */
  function RowCells(g: seq<string>, y: int, x: nat): seq<Coord>
  {
    if x == 0 then [] else RowCells(g, y, x - 1) + (if AxisAt(g, x - 1, y).Some? then [Coord(x - 1, y)] else [])
  }

  /** The cells of [0, w) x [0, h) that spawn a platform, in row-major order. */
  function SweepCells(g: seq<string>, w: nat, h: nat): seq<Coord>
  {
    if h == 0 then [] else SweepCells(g, w, h - 1) + RowCells(g, h - 1, w)
  }

  /** The platform extraction builds for the spawning cell c (a placeholder at c for any other cell). */
  ghost function PlatformOf(g: seq<string>, c: Coord): MovingPlatform
  {
    if AxisAt(g, c.x, c.y).Some? && CanScan(g, c.x, c.y) then Extracted(g, c.x, c.y)[0] else MovingPlatform(c, c, c, true)
  }

  /** The platforms of the cells cs, in the same order. */
  ghost function Platforms(g: seq<string>, cs: seq<Coord>): seq<MovingPlatform>
  {
    seq(|cs|, a requires 0 <= a < |cs| => PlatformOf(g, cs[a]))
  }

  /** The platforms of cells 0 .. x - 1 of row y, left to right. */
  ghost function RowSweep(g: seq<string>, y: int, x: nat): seq<MovingPlatform>
  {
    Platforms(g, RowCells(g, y, x))
  }

  /** The platforms of rows 0 .. h - 1, top to bottom. */
  ghost function Sweep(g: seq<string>, w: nat, h: nat): seq<MovingPlatform>
  {
    Platforms(g, SweepCells(g, w, h))
  }

  /** Before the sweep starts nothing is erased. */
  lemma ErasedNothing(g: seq<string>, w: nat)
    ensures Erased(g, w, 0, 0) == g
  {
    var e := Erased(g, w, 0, 0);
    forall j | 0 <= j < |g| ensures e[j] == g[j] {
      assert |e[j]| == |g[j]|;
    }
  }

  /** Finishing row y is the same as standing at the start of row y + 1. */
  lemma ErasedRowEnd(g: seq<string>, w: nat, y: nat)
    ensures Erased(g, w, y, w) == Erased(g, w, y + 1, 0)
  {
    var a, b := Erased(g, w, y, w), Erased(g, w, y + 1, 0);
    forall j | 0 <= j < |g| ensures a[j] == b[j] {
      assert Visited(j, w, y, w) == Visited(j, w, y + 1, 0);
    }
  }

  /** The cell at (x, y) has not been touched yet when the sweep reaches it, so it extracts what the split rows say. */
  lemma ErasedStepScans(g: seq<string>, w: nat, y: nat, x: nat)
    requires x < w && CanScan(g, x, y)
    ensures CellAt(Erased(g, w, y, x), x, y) == CellAt(g, x, y)
    ensures CanScan(Erased(g, w, y, x), x, y)
    ensures Extracted(Erased(g, w, y, x), x, y) == Extracted(g, x, y)
  {
    var l := Erased(g, w, y, x);
    assert Erases(g, l);
    ExtractedUnderErasure(g, l, x, y);
  }

  /** Extracting at (x, y) advances the erasure by one cell. */
  lemma ErasedStepAdvance(g: seq<string>, w: nat, y: nat, x: nat)
    requires x < w && CanScan(g, x, y)
    ensures ExtractAt(Erased(g, w, y, x), x, y) == Erased(g, w, y, x + 1)
  {
    var l, e := Erased(g, w, y, x), Erased(g, w, y, x + 1);
    assert AxisAt(l, x, y) == AxisAt(g, x, y) by {
      ErasedStepScans(g, w, y, x);
      assert Erases(g, l);
      ExtractedUnderErasure(g, l, x, y);
    }
    forall j | 0 <= j < |g| && j != y ensures l[j] == e[j] {
      assert |l[j]| == |e[j]|;
    }
    if AxisAt(g, x, y).Some? {
      var r := Replace(l[y], x);
      assert |r| == |e[y]|;
      forall i | 0 <= i < |r| ensures r[i] == e[y][i] {
        if i != x {
          assert r[i] == l[y][i];
        }
      }
      assert r == e[y];
      var n := l[y := r];
      forall j | 0 <= j < |g| ensures n[j] == e[j] {
        if j != y {
          assert n[j] == l[j];
        }
      }
      assert n == e;
    } else {
      forall j | 0 <= j < |g| ensures l[j] == e[j] {
        if j == y {
          assert |l[y]| == |e[y]|;
          forall i | 0 <= i < |l[y]| ensures l[y][i] == e[y][i] {
            assert Visited(y, w, y, x) == x && Visited(y, w, y, x + 1) == x + 1;
            assert i == x ==> l[y][i] == g[y][i] && e[y][i] == g[y][i];
          }
        }
      }
      assert l == e;
    }
  }

  /** Erasure keeps the number of rows, every row's length and so the width. */
  lemma ErasedShape(g: seq<string>, w: nat, y: nat, x: nat)
    ensures |Erased(g, w, y, x)| == |g|
    ensures forall j :: 0 <= j < |g| ==> |Erased(g, w, y, x)[j]| == |g[j]|
    ensures Width(Erased(g, w, y, x)) == Width(g)
  {
    WidthOfSameLengths(Erased(g, w, y, x), g);
  }

  /** The sweep's rows: every cell in [0, w) x [0, h) that spawns a platform is AIR, everything else is as split. */
  lemma SweptCells(g: seq<string>, w: nat, h: nat)
    ensures forall i, j ::
              CellAt(Erased(g, w, h, 0), i, j) ==
              (if 0 <= j < h && 0 <= i < w && AxisAt(g, i, j).Some? then AIR else CellAt(g, i, j))
  {
  }

  /** Row-major order on coordinates. */
  predicate RowMajorBefore(a: Coord, b: Coord)
  {
    a.y < b.y || (a.y == b.y && a.x < b.x)
  }

  /** The platform of a spawning cell whose walks terminate is the one extraction builds there, and every platform starts at its cell. */
  lemma PlatformOfCell(g: seq<string>, c: Coord)
    ensures PlatformOf(g, c).curr == c
    ensures AxisAt(g, c.x, c.y).Some? && CanScan(g, c.x, c.y) ==> Extracted(g, c.x, c.y) == [PlatformOf(g, c)]
  {
  }

  /** The platforms of two runs of cells one after the other. */
  lemma PlatformsAppend(g: seq<string>, a: seq<Coord>, b: seq<Coord>)
    ensures Platforms(g, a + b) == Platforms(g, a) + Platforms(g, b)
  {
    var l, r := Platforms(g, a + b), Platforms(g, a) + Platforms(g, b);
    forall k | 0 <= k < |l| ensures l[k] == r[k] {
      if k < |a| {
        assert (a + b)[k] == a[k];
      } else {
        assert (a + b)[k] == b[k - |a|];
      }
    }
  }

  /** Visiting cell (x, y) appends what extraction there yields. */
  lemma RowSweepStep(g: seq<string>, y: int, x: nat)
    requires CanScan(g, x, y)
    ensures RowSweep(g, y, x + 1) == RowSweep(g, y, x) + Extracted(g, x, y)
  {
    var c := Coord(x, y);
    var e := if AxisAt(g, x, y).Some? then [c] else [];
    assert RowCells(g, y, x + 1) == RowCells(g, y, x) + e;
    PlatformsAppend(g, RowCells(g, y, x), e);
    PlatformOfCell(g, c);
  }

  /** One cell of the sweep: extracting at (x, y) on rows erased up to (x, y) advances the erasure and
      the platforms found by exactly that cell's contribution. */
  lemma SweepCellStep(g: seq<string>, w: nat, y: nat, x: nat, l: seq<string>, l': seq<string>,
                      before: seq<MovingPlatform>, ps: seq<MovingPlatform>, ps': seq<MovingPlatform>)
    requires x < w && CanScan(g, x, y) && l == Erased(g, w, y, x)
    requires CanScan(l, x, y) && l' == ExtractAt(l, x, y) && ps' == ps + Extracted(l, x, y)
    requires ps == before + RowSweep(g, y, x)
    ensures l' == Erased(g, w, y, x + 1) && ps' == before + RowSweep(g, y, x + 1)
  {
    ErasedStepScans(g, w, y, x);
    ErasedStepAdvance(g, w, y, x);
    RowSweepStep(g, y, x);
    AppendAssoc(before, RowSweep(g, y, x), Extracted(g, x, y));
  }

  /** One row of the sweep: the platforms of row y follow those of the rows above it. */
  lemma SweepRowStep(g: seq<string>, w: nat, h: nat, y: nat,
                     before: seq<MovingPlatform>, ps: seq<MovingPlatform>, ps': seq<MovingPlatform>)
    requires y < h && SweepCanScan(g, w, h)
    requires ps == before + Sweep(g, w, y) && ps' == ps + RowSweep(g, y, w)
    ensures forall i :: 0 <= i < w ==> CanScan(g, i, y)
    ensures ps' == before + Sweep(g, w, y + 1)
  {
    PlatformsAppend(g, SweepCells(g, w, y), RowCells(g, y, w));
    AppendAssoc(before, Sweep(g, w, y), RowSweep(g, y, w));
  }

  lemma AppendAssoc<T>(a: seq<T>, b: seq<T>, c: seq<T>)
    ensures (a + b) + c == a + (b + c)
  {
  }

  /** Cell k of a row's spawning cells lies in that row, left of x, and spawns a platform. */
  lemma {:induction false} RowCellsAt(g: seq<string>, y: int, x: nat, k: nat)
    requires k < |RowCells(g, y, x)|
    ensures RowCells(g, y, x)[k].y == y && 0 <= RowCells(g, y, x)[k].x < x
    ensures AxisAt(g, RowCells(g, y, x)[k].x, y).Some?
  {
    var front := RowCells(g, y, x - 1);
    if k < |front| {
      RowCellsAt(g, y, x - 1, k);
    }
  }

  /** A row's spawning cells come left to right. */
  lemma {:induction false} RowCellsIncreasing(g: seq<string>, y: int, x: nat, k: nat, l: nat)
    requires k < l < |RowCells(g, y, x)|
    ensures RowCells(g, y, x)[k].x < RowCells(g, y, x)[l].x
  {
    var front := RowCells(g, y, x - 1);
    if l < |front| {
      RowCellsIncreasing(g, y, x - 1, k, l);
    } else {
      RowCellsAt(g, y, x - 1, k);
    }
  }

  /** Every spawning cell of the row left of x is among the row's spawning cells. */
  lemma {:induction false} RowCellsComplete(g: seq<string>, y: int, x: nat, i: int) returns (k: nat)
    requires 0 <= i < x && AxisAt(g, i, y).Some?
    ensures k < |RowCells(g, y, x)| && RowCells(g, y, x)[k] == Coord(i, y)
  {
    if i == x - 1 {
      k := |RowCells(g, y, x - 1)|;
    } else {
      k := RowCellsComplete(g, y, x - 1, i);
    }
  }

  /** Cell k of the sweep's spawning cells lies in [0, w) x [0, h) and spawns a platform. */
  lemma {:induction false} SweepCellsAt(g: seq<string>, w: nat, h: nat, k: nat)
    requires k < |SweepCells(g, w, h)|
    ensures 0 <= SweepCells(g, w, h)[k].x < w && 0 <= SweepCells(g, w, h)[k].y < h
    ensures AxisAt(g, SweepCells(g, w, h)[k].x, SweepCells(g, w, h)[k].y).Some?
  {
    var front := SweepCells(g, w, h - 1);
    if k < |front| {
      SweepCellsAt(g, w, h - 1, k);
    } else {
      RowCellsAt(g, h - 1, w, k - |front|);
    }
  }

  /** The sweep's spawning cells come in strictly increasing row-major order. */
  lemma {:induction false} SweepCellsOrdered(g: seq<string>, w: nat, h: nat, k: nat, l: nat)
    requires k < l < |SweepCells(g, w, h)|
    ensures RowMajorBefore(SweepCells(g, w, h)[k], SweepCells(g, w, h)[l])
  {
    var front := SweepCells(g, w, h - 1);
    if l < |front| {
      SweepCellsOrdered(g, w, h - 1, k, l);
    } else if k < |front| {
      SweepCellsAt(g, w, h - 1, k);
      RowCellsAt(g, h - 1, w, l - |front|);
    } else {
      RowCellsIncreasing(g, h - 1, w, k - |front|, l - |front|);
      RowCellsAt(g, h - 1, w, k - |front|);
      RowCellsAt(g, h - 1, w, l - |front|);
    }
  }

  /** Every spawning cell of [0, w) x [0, h) is among the sweep's spawning cells. */
  lemma {:induction false} SweepCellsComplete(g: seq<string>, w: nat, h: nat, i: int, j: int) returns (k: nat)
    requires 0 <= j < h && 0 <= i < w && AxisAt(g, i, j).Some?
    ensures k < |SweepCells(g, w, h)| && SweepCells(g, w, h)[k] == Coord(i, j)
  {
    var front := SweepCells(g, w, h - 1);
    if j == h - 1 {
      var r := RowCellsComplete(g, h - 1, w, i);
      k := |front| + r;
    } else {
      k := SweepCellsComplete(g, w, h - 1, i, j);
    }
  }

  /** Each platform of the sweep sits on a spawning cell of [0, w) x [0, h) and is the platform extraction builds there. */
  lemma SweepPlaced(g: seq<string>, w: nat, h: nat)
    requires SweepCanScan(g, w, h)
    ensures forall a :: 0 <= a < |Sweep(g, w, h)| ==>
      0 <= Sweep(g, w, h)[a].curr.x < w && 0 <= Sweep(g, w, h)[a].curr.y < h &&
      AxisAt(g, Sweep(g, w, h)[a].curr.x, Sweep(g, w, h)[a].curr.y).Some? &&
      Extracted(g, Sweep(g, w, h)[a].curr.x, Sweep(g, w, h)[a].curr.y) == [Sweep(g, w, h)[a]]
  {
    var cs := SweepCells(g, w, h);
    forall a | 0 <= a < |Sweep(g, w, h)|
      ensures 0 <= Sweep(g, w, h)[a].curr.x < w && 0 <= Sweep(g, w, h)[a].curr.y < h
      ensures AxisAt(g, Sweep(g, w, h)[a].curr.x, Sweep(g, w, h)[a].curr.y).Some?
      ensures Extracted(g, Sweep(g, w, h)[a].curr.x, Sweep(g, w, h)[a].curr.y) == [Sweep(g, w, h)[a]]
    {
      SweepCellsAt(g, w, h, a);
      PlatformOfCell(g, cs[a]);
    }
  }

  /** The sweep's platforms come in strictly increasing row-major order of their cells, so no cell has two. */
  lemma SweepOrdered(g: seq<string>, w: nat, h: nat)
    ensures forall a, b :: 0 <= a < b < |Sweep(g, w, h)| ==>
      RowMajorBefore(Sweep(g, w, h)[a].curr, Sweep(g, w, h)[b].curr)
  {
    var cs := SweepCells(g, w, h);
    forall a, b | 0 <= a < b < |Sweep(g, w, h)| ensures RowMajorBefore(Sweep(g, w, h)[a].curr, Sweep(g, w, h)[b].curr) {
      SweepCellsOrdered(g, w, h, a, b);
      PlatformOfCell(g, cs[a]);
      PlatformOfCell(g, cs[b]);
    }
  }

  /** Some platform of ps is at cell c. */
  ghost predicate HasPlatformAt(ps: seq<MovingPlatform>, c: Coord)
  {
    exists a :: 0 <= a < |ps| && ps[a].curr == c
  }

  /** Every spawning cell of [0, w) x [0, h) has a platform in the sweep. */
  lemma SweepComplete(g: seq<string>, w: nat, h: nat)
    ensures forall j, i :: 0 <= j < h && 0 <= i < w && AxisAt(g, i, j).Some? ==>
      HasPlatformAt(Sweep(g, w, h), Coord(i, j))
  {
    var cs := SweepCells(g, w, h);
    forall j, i | 0 <= j < h && 0 <= i < w && AxisAt(g, i, j).Some?
      ensures HasPlatformAt(Sweep(g, w, h), Coord(i, j))
    {
      var k := SweepCellsComplete(g, w, h, i, j);
      PlatformOfCell(g, cs[k]);
      assert Sweep(g, w, h)[k].curr == Coord(i, j);
    }
  }
}
