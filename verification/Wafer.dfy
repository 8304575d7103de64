/** How many dies fit on a wafer: a raster scan of the four quadrants, over exact reals. */
module Wafer {
  import opened Ordering

  /** `math.hypot(x, y) < r`, for a radius that is not negative. */
  predicate Within(x: real, y: real, r: real) {
    x * x + y * y < r * r
  }

  /** The far corner of the cell in column `i` and row `j`, both counted from 1, is inside. */
  predicate Fits(w: real, h: real, r: real, i: nat, j: nat) {
    i >= 1 && j >= 1 && Within(i as real * w, j as real * h, r)
  }

  /** Every point of the cell is inside the circle. */
  ghost predicate CellInside(w: real, h: real, r: real, i: nat, j: nat) {
    forall x, y {:trigger Within(x, y, r)} ::
      (i as real - 1.0) * w <= x <= i as real * w && (j as real - 1.0) * h <= y <= j as real * h ==> Within(x, y, r)
  }

  lemma SquareGrows(a: real, b: real)
    requires 0.0 <= a <= b
    ensures a * a <= b * b
  {
    assert a * a <= a * b <= b * b;
  }

  lemma Positive(a: real, b: real)
    requires a > 0.0 && b > 0.0
    ensures a * b > 0.0
  {
  }

  lemma SquareLess(a: real, b: real)
    requires a >= 0.0 && b > 0.0
    ensures a < b <==> a * a < b * b
  {
    if a >= b {
      SquareGrows(b, a);
    } else {
      Positive(b - a, b + a);
      assert b * b - a * a == (b - a) * (b + a);
    }
  }

  lemma Scaled(i: real, j: real, w: real)
    requires i <= j && w >= 0.0
    ensures i * w <= j * w
  {
  }

  /** A cell is counted exactly when all of it lies inside the circle. */
  lemma FitsIffCellInside(w: real, h: real, r: real, i: nat, j: nat)
    requires w > 0.0 && h > 0.0 && i >= 1 && j >= 1
    ensures Fits(w, h, r, i, j) <==> CellInside(w, h, r, i, j)
  {
    var right, top := i as real * w, j as real * h;
    Scaled(i as real - 1.0, i as real, w);
    Scaled(j as real - 1.0, j as real, h);
    if Fits(w, h, r, i, j) {
      Scaled(0.0, i as real - 1.0, w);
      Scaled(0.0, j as real - 1.0, h);
      forall x, y | (i as real - 1.0) * w <= x <= right && (j as real - 1.0) * h <= y <= top
        ensures Within(x, y, r)
      {
        SquareGrows(x, right);
        SquareGrows(y, top);
      }
    }
    if CellInside(w, h, r, i, j) {
      assert Within(right, top, r);
    }
  }

  // ----------------------------------------------------------------- the cells

  /** The most steps of size `w` that stay inside the radius. */
  function Reach(w: real, r: real): nat
    requires w > 0.0 && r > 0.0
  {
    (r / w).Floor
  }

  lemma ReachBounds(w: real, r: real, i: nat, y: real)
    requires w > 0.0 && r > 0.0 && Within(i as real * w, y, r)
    ensures i <= Reach(w, r)
  {
    Scaled(0.0, i as real, w);
    assert y * y >= 0.0;
    SquareLess(i as real * w, r);
    assert i as real < r / w by {
      assert i as real * w < (r / w) * w;
    }
  }

  function Grid(a: nat, b: nat): set<(nat, nat)> {
    set i: nat, j: nat | 1 <= i <= a && 1 <= j <= b :: (i, j)
  }

  /** The cells of one quadrant that lie inside the circle. */
  function Cells(w: real, h: real, r: real): set<(nat, nat)>
    requires w > 0.0 && h > 0.0 && r > 0.0
  {
    set c | c in Grid(Reach(w, r), Reach(h, r)) && Fits(w, h, r, c.0, c.1)
  }

  lemma CellsAre(w: real, h: real, r: real, i: nat, j: nat)
    requires w > 0.0 && h > 0.0 && r > 0.0
    ensures (i, j) in Cells(w, h, r) <==> Fits(w, h, r, i, j)
  {
    if Fits(w, h, r, i, j) {
      ReachBounds(w, r, i, j as real * h);
      ReachBounds(h, r, j, i as real * w);
      assert (i, j) in Grid(Reach(w, r), Reach(h, r));
    }
  }

  function Column(a: nat, b: nat): set<(nat, nat)> {
    set j: nat | 1 <= j <= b :: (a, j)
  }

  lemma {:induction false} ColumnSize(a: nat, b: nat)
    ensures |Column(a, b)| == b
  {
    if b == 0 {
      assert Column(a, b) == {};
    } else {
      ColumnSize(a, b - 1);
      assert Column(a, b) == Column(a, b - 1) + {(a, b)};
    }
  }

  lemma GridOneMore(a: nat, b: nat)
    ensures |Grid(a + 1, b)| == |Grid(a, b)| + b
  {
    ColumnSize(a + 1, b);
    assert Grid(a + 1, b) == Grid(a, b) + Column(a + 1, b);
    assert Grid(a, b) !! Column(a + 1, b);
  }

  lemma {:induction false} GridSize(a: nat, b: nat)
    ensures |Grid(a, b)| == a * b
  {
    if a == 0 {
      assert Grid(a, b) == {};
    } else {
      GridSize(a - 1, b);
      GridOneMore(a - 1, b);
    }
  }

  // ------------------------------------------------------------------ the scan

  /** Counted so far: the rows below `j`, and in row `j` the columns before `i`. */
  ghost predicate Scanned(seen: set<(nat, nat)>, w: real, h: real, r: real, i: nat, j: nat) {
    forall a: nat, b: nat :: (a, b) in seen <==> Fits(w, h, r, a, b) && (b < j || (b == j && a < i))
  }

  /** Beyond a cell that is not inside, the rest of its row is not inside either. */
  lemma FitsDown(w: real, h: real, r: real, i: nat, j: nat, a: nat, b: nat)
    requires w > 0.0 && h > 0.0 && 1 <= a <= i && 1 <= b <= j && Fits(w, h, r, i, j)
    ensures Fits(w, h, r, a, b)
  {
    Scaled(0.0, a as real, w);
    Scaled(a as real, i as real, w);
    Scaled(0.0, b as real, h);
    Scaled(b as real, j as real, h);
    SquareGrows(a as real * w, i as real * w);
    SquareGrows(b as real * h, j as real * h);
  }

  lemma RowEnds(seen: set<(nat, nat)>, w: real, h: real, r: real, i: nat, j: nat)
    requires w > 0.0 && h > 0.0 && i >= 1 && j >= 1 && Scanned(seen, w, h, r, i, j) && !Fits(w, h, r, i, j)
    ensures Scanned(seen, w, h, r, 1, j + 1)
  {
    forall a: nat, b: nat
      ensures (a, b) in seen <==> Fits(w, h, r, a, b) && (b < j + 1 || (b == j + 1 && a < 1))
    {
      if b == j && a >= i && Fits(w, h, r, a, b) {
        FitsDown(w, h, r, a, j, i, j);
      }
    }
  }

  lemma RowsBeyond(w: real, h: real, r: real, j: nat, a: nat, b: nat)
    requires w > 0.0 && h > 0.0 && !Within(0.0, j as real * h, r) && b >= j
    ensures !Fits(w, h, r, a, b)
  {
    Scaled(0.0, j as real, h);
    Scaled(j as real, b as real, h);
    SquareGrows(j as real * h, b as real * h);
    assert (a as real * w) * (a as real * w) >= 0.0;
  }

  lemma ScanEnds(seen: set<(nat, nat)>, w: real, h: real, r: real, j: nat)
    requires w > 0.0 && h > 0.0 && r > 0.0 && Scanned(seen, w, h, r, 1, j + 1) && !Within(0.0, j as real * h, r)
    ensures seen == Cells(w, h, r)
  {
    forall c: (nat, nat)
      ensures c in seen <==> c in Cells(w, h, r)
    {
      var (a, b) := c;
      CellsAre(w, h, r, a, b);
      if b > j {
        RowsBeyond(w, h, r, j, a, b);
      }
    }
  }

  /** Steps of either sign lead equally far from the centre. */
  lemma SignedStep(step: real, i: nat)
    requires step != 0.0
    ensures var x, size := i as real * step, i as real * Size(step); x * x == size * size
  {
  }

  function Size(step: real): real {
    if step < 0.0 then -step else step
  }

  /** The scan of one quadrant counts its cells. */
  method CountQuadrant(xincr: real, yincr: real, radius: real) returns (dies: nat)
    requires xincr != 0.0 && yincr != 0.0 && radius > 0.0
    ensures dies == |Cells(Size(xincr), Size(yincr), radius)|
  {
    ghost var w, h := Size(xincr), Size(yincr);
    ghost var seen: set<(nat, nat)> := {};
    ghost var j: nat := 0;
    dies := 0;
    var y := 0.0;
    while Within(0.0, y, radius)
      invariant y == j as real * yincr
      invariant Scanned(seen, w, h, radius, 1, j + 1) && dies == |seen|
      decreases Reach(h, radius) + 1 - j
    {
      SignedStep(yincr, j);
      ReachBounds(h, radius, j, 0.0);
      y := y + yincr;
      j := j + 1;
      ghost var before := seen;
      dies, seen := CountRow(xincr, y, yincr, j, radius, dies, seen);
    }
    SignedStep(yincr, j);
    ScanEnds(seen, w, h, radius, j);
  }

  /** The inner loop: one row, from the first column outwards. */
  method CountRow(xincr: real, y: real, yincr: real, ghost j: nat, radius: real, before: nat,
      ghost seen: set<(nat, nat)>)
    returns (dies: nat, ghost now: set<(nat, nat)>)
    requires xincr != 0.0 && yincr != 0.0 && radius > 0.0 && j >= 1 && y == j as real * yincr
    requires Scanned(seen, Size(xincr), Size(yincr), radius, 1, j) && before == |seen|
    ensures Scanned(now, Size(xincr), Size(yincr), radius, 1, j + 1) && dies == |now|
  {
    ghost var w, h := Size(xincr), Size(yincr);
    ghost var i: nat := 1;
    var x := xincr;
    dies, now := before, seen;
    SignedStep(yincr, j);
    while Within(x, y, radius)
      invariant i >= 1 && x == i as real * xincr
      invariant Scanned(now, w, h, radius, i, j) && dies == |now|
      decreases Reach(w, radius) + 1 - i
    {
      SignedStep(xincr, i);
      ReachBounds(w, radius, i, y);
      assert Fits(w, h, radius, i, j);
      assert (i, j) !in now;
      x := x + xincr;
      now := now + {(i, j)};
      i := i + 1;
      dies := dies + 1;
    }
    SignedStep(xincr, i);
    RowEnds(now, w, h, radius, i, j);
  }

  // ---------------------------------------------------------- the whole wafer

  /** Lengths in mm; `scribe` is the width of the horizontal and of the vertical scribe line. */
  datatype Process = Process(wafersize: Option<real>, edgemargin: Option<real>,
    scribe: Option<(Option<real>, Option<real>)>)

  function OrZero(x: Option<real>): real {
    if x.Some? then x.value else 0.0
  }

  function Radius(p: Process): real
    requires p.wafersize.Some?
  {
    p.wafersize.value / 2.0 - OrZero(p.edgemargin)
  }

  /** Die sizes come in micrometres. */
  function StepWidth(p: Process, diewidth: real): real {
    diewidth / 1000.0 + if p.scribe.Some? then OrZero(p.scribe.value.0) else 0.0
  }

  function StepHeight(p: Process, dieheight: real): real {
    dieheight / 1000.0 + if p.scribe.Some? then OrZero(p.scribe.value.1) else 0.0
  }

  function Dies(w: real, h: real, r: real): nat {
    if r > 0.0 && w > 0.0 && h > 0.0 then 4 * |Cells(w, h, r)| else 0
  }

  /**
   * In micrometres: the far corner of the `i`-th die to the right and the `j`-th upwards, each with its
   * scribe line, is inside the wafer without its margin.
   */
  ghost predicate OnWafer(p: Process, diewidth: real, dieheight: real, i: nat, j: nat) {
    var hscribe := if p.scribe.Some? && p.scribe.value.0.Some? then p.scribe.value.0.value else 0.0;
    var vscribe := if p.scribe.Some? && p.scribe.value.1.Some? then p.scribe.value.1.value else 0.0;
    var margin := if p.edgemargin.Some? then p.edgemargin.value else 0.0;
    var width, height := diewidth + 1000.0 * hscribe, dieheight + 1000.0 * vscribe;
    && p.wafersize.Some? && i >= 1 && j >= 1 && width > 0.0 && height > 0.0
    && var x, y, r := i as real * width, j as real * height, 500.0 * p.wafersize.value - 1000.0 * margin;
       r > 0.0 && x * x + y * y < r * r
  }

  lemma Thousandfold(x: real, y: real, r: real)
    ensures Within(x, y, r)
      <==> (1000.0 * x) * (1000.0 * x) + (1000.0 * y) * (1000.0 * y) < (1000.0 * r) * (1000.0 * r)
  {
    assert (1000.0 * x) * (1000.0 * x) == 1000000.0 * (x * x);
    assert (1000.0 * y) * (1000.0 * y) == 1000000.0 * (y * y);
    assert (1000.0 * r) * (1000.0 * r) == 1000000.0 * (r * r);
  }

  lemma Thousand(i: nat, w: real, width: real)
    requires width == 1000.0 * w
    ensures i as real * width == 1000.0 * (i as real * w)
  {
  }

  /** A cell is inside in millimetres exactly when the die is on the wafer in micrometres. */
  lemma OnWaferIff(p: Process, diewidth: real, dieheight: real, i: nat, j: nat)
    requires p.wafersize.Some?
    ensures var w, h, r := StepWidth(p, diewidth), StepHeight(p, dieheight), Radius(p);
      OnWafer(p, diewidth, dieheight, i, j) <==> w > 0.0 && h > 0.0 && r > 0.0 && Fits(w, h, r, i, j)
  {
    var w, h, r := StepWidth(p, diewidth), StepHeight(p, dieheight), Radius(p);
    Thousand(i, w, 1000.0 * w);
    Thousand(j, h, 1000.0 * h);
    Thousandfold(i as real * w, j as real * h, r);
  }

  /** The dies of one quadrant. */
  lemma QuadrantIs(p: Process, diewidth: real, dieheight: real) returns (dies: set<(nat, nat)>)
    requires p.wafersize.Some?
    ensures forall i: nat, j: nat :: (i, j) in dies <==> OnWafer(p, diewidth, dieheight, i, j)
    ensures Dies(StepWidth(p, diewidth), StepHeight(p, dieheight), Radius(p)) == 4 * |dies|
  {
    var w, h, r := StepWidth(p, diewidth), StepHeight(p, dieheight), Radius(p);
    dies := if r > 0.0 && w > 0.0 && h > 0.0 then Cells(w, h, r) else {};
    hide OnWafer, Cells, Fits, StepWidth, StepHeight, Radius;
    forall i: nat, j: nat
      ensures (i, j) in dies <==> OnWafer(p, diewidth, dieheight, i, j)
    {
      OnWaferIff(p, diewidth, dieheight, i, j);
      if r > 0.0 && w > 0.0 && h > 0.0 {
        CellsAre(w, h, r, i, j);
      }
    }
  }

  /** None stands for the error raised when the wafer size is not set. */
  method CalcDpw(p: Process, diewidth: real, dieheight: real) returns (result: Option<nat>)
    ensures result == if p.wafersize.None? then None
      else Some(Dies(StepWidth(p, diewidth), StepHeight(p, dieheight), Radius(p)))
    ensures result.Some? ==> exists dies: set<(nat, nat)> ::
      && result.value == 4 * |dies|
      && forall i: nat, j: nat :: (i, j) in dies <==> OnWafer(p, diewidth, dieheight, i, j)
  {
    hide OnWafer, Cells;
    if p.wafersize.Some? {
      ghost var dies := QuadrantIs(p, diewidth, dieheight);
    }
    if p.wafersize.None? {
      return None;
    }
    var edgemargin := OrZero(p.edgemargin);
    var hscribe, vscribe := 0.0, 0.0;
    if p.scribe.Some? {
      hscribe, vscribe := OrZero(p.scribe.value.0), OrZero(p.scribe.value.1);
    }
    var radius := p.wafersize.value / 2.0 - edgemargin;
    if radius <= 0.0 {
      return Some(0);
    }
    var stepwidth, stepheight := diewidth / 1000.0 + hscribe, dieheight / 1000.0 + vscribe;
    if stepwidth <= 0.0 || stepheight <= 0.0 {
      return Some(0);
    }
    var q1 := CountQuadrant(stepwidth, stepheight, radius);
    var q2 := CountQuadrant(-stepwidth, stepheight, radius);
    var q3 := CountQuadrant(-stepwidth, -stepheight, radius);
    var q4 := CountQuadrant(stepwidth, -stepheight, radius);
    result := Some(q1 + q2 + q3 + q4);
  }

  // ---------------------------------------------------------------- properties

  lemma {:induction false} FlipSize(s: set<(nat, nat)>)
    ensures |set c | c in s :: (c.1, c.0)| == |s|
    decreases |s|
  {
    var flipped := set c | c in s :: (c.1, c.0);
    if s != {} {
      var c :| c in s;
      FlipSize(s - {c});
      assert flipped == (set d | d in s - {c} :: (d.1, d.0)) + {(c.1, c.0)};
    } else {
      assert flipped == {};
    }
  }

  /** Turning the die by a right angle changes nothing. */
  lemma DiesSymmetric(w: real, h: real, r: real)
    ensures Dies(w, h, r) == Dies(h, w, r)
  {
    if r > 0.0 && w > 0.0 && h > 0.0 {
      var cells := Cells(w, h, r);
      var flipped := set c | c in cells :: (c.1, c.0);
      FlipSize(cells);
      forall i: nat, j: nat
        ensures (i, j) in flipped <==> (i, j) in Cells(h, w, r)
      {
        CellsAre(w, h, r, j, i);
        CellsAre(h, w, r, i, j);
        assert (j, i) in cells ==> (i, j) in flipped;
      }
      assert flipped == Cells(h, w, r);
    }
  }

  function Turned(p: Process): Process {
    p.(scribe := if p.scribe.None? then None else Some((p.scribe.value.1, p.scribe.value.0)))
  }

  /** A die turned together with its scribe lines fits as often. */
  lemma TurningChangesNothing(p: Process, diewidth: real, dieheight: real)
    requires p.wafersize.Some?
    ensures Dies(StepWidth(p, diewidth), StepHeight(p, dieheight), Radius(p))
      == Dies(StepWidth(Turned(p), dieheight), StepHeight(Turned(p), diewidth), Radius(Turned(p)))
  {
    DiesSymmetric(StepWidth(p, diewidth), StepHeight(p, dieheight), Radius(p));
  }

  /** Smaller steps and a larger radius never lose a die. */
  lemma DiesMonotone(w: real, h: real, r: real, w': real, h': real, r': real)
    requires 0.0 < w' <= w && 0.0 < h' <= h && r <= r'
    ensures Dies(w, h, r) <= Dies(w', h', r')
  {
    if r > 0.0 {
      forall i: nat, j: nat | (i, j) in Cells(w, h, r)
        ensures (i, j) in Cells(w', h', r')
      {
        CellsAre(w, h, r, i, j);
        CellsAre(w', h', r', i, j);
        SmallerFits(w, h, r, w', h', r', i, j);
      }
      SubsetSize(Cells(w, h, r), Cells(w', h', r'));
    }
  }

  lemma SmallerFits(w: real, h: real, r: real, w': real, h': real, r': real, i: nat, j: nat)
    requires 0.0 < w' <= w && 0.0 < h' <= h && 0.0 < r <= r' && Fits(w, h, r, i, j)
    ensures Fits(w', h', r', i, j)
  {
    Scaled(0.0, i as real, w');
    Scaled(0.0, j as real, h');
    assert i as real * w' <= i as real * w;
    assert j as real * h' <= j as real * h;
    SquareGrows(i as real * w', i as real * w);
    SquareGrows(j as real * h', j as real * h);
    SquareGrows(r, r');
  }

  lemma ReachFits(w: real, r: real)
    requires w > 0.0 && r > 0.0
    ensures 0.0 <= Reach(w, r) as real * w <= r
  {
    var n := Reach(w, r) as real;
    assert n <= r / w;
    Scaled(n, r / w, w);
    Scaled(0.0, n, w);
    assert (r / w) * w == r;
  }

  lemma DiesBound(w: real, h: real, r: real)
    requires w > 0.0 && h > 0.0 && r > 0.0
    ensures Dies(w, h, r) <= 4 * (Reach(w, r) * Reach(h, r))
  {
    SubsetSize(Cells(w, h, r), Grid(Reach(w, r), Reach(h, r)));
    GridSize(Reach(w, r), Reach(h, r));
  }

  lemma DiesInGrid(w: real, h: real, r: real) returns (a: nat, b: nat)
    requires w > 0.0 && h > 0.0 && r > 0.0
    ensures Dies(w, h, r) <= 4 * (a * b)
    ensures 0.0 <= a as real * w <= r && 0.0 <= b as real * h <= r
  {
    a, b := Reach(w, r), Reach(h, r);
    DiesBound(w, h, r);
    ReachFits(w, r);
    ReachFits(h, r);
  }

  lemma AreaBound(dies: nat, a: nat, b: nat, w: real, h: real, r: real)
    requires dies <= 4 * (a * b) && w > 0.0 && h > 0.0 && r > 0.0
    requires 0.0 <= a as real * w <= r && 0.0 <= b as real * h <= r
    ensures dies as real * w * h <= 4.0 * r * r
  {
    var x, y := a as real * w, b as real * h;
    assert x * y <= r * r by {
      assert x * y <= r * y <= r * r;
    }
    var ab := a as real * b as real;
    assert ab * (w * h) == x * y;
    assert dies as real <= 4.0 * ab;
    Scaled(dies as real, 4.0 * ab, w * h);
    assert dies as real * w * h == dies as real * (w * h);
  }

  /** The dies cover no more than the square around the circle. */
  lemma DiesCoverLittle(w: real, h: real, r: real)
    requires w > 0.0 && h > 0.0 && r > 0.0
    ensures Dies(w, h, r) as real * w * h <= 4.0 * r * r
  {
    var a, b := DiesInGrid(w, h, r);
    AreaBound(Dies(w, h, r), a, b, w, h, r);
  }
}
