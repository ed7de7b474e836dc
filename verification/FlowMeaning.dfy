/** What the fluid kernels do to a field, in terms of positions and neighbours alone.  */
module FlowMeanings {
  import opened Fluids
  import opened FlowFluids

  /** The value in column x of row y. */
  function Cell(w: nat, h: nat, d: seq<real>, x: nat, y: nat): real
    requires x < w && y < h && |d| == Size(w, h)
  {
    Position(w, h, x, y);
    d[At(w, x, y)]
  }

  lemma CellAt(w: nat, h: nat, d: seq<real>, x: nat, y: nat)
    requires x < w && y < h && |d| == Size(w, h)
    ensures At(w, x, y) < |d| && Cell(w, h, d, x, y) == d[At(w, x, y)]
  {
    Position(w, h, x, y);
  }

  // ---- Advection ----

  /** Where a cell is read along an axis of n cells: at the position its contents came from, held
      half a cell from the start and a cell and a half from the end. One cell is read as it is. */
  ghost predicate ReadAt(n: nat, from: real, at: real) {
    if n == 1 then at == 0.0
    else if from < 0.5 then at == 0.5
    else if from > n as real - 1.5 then at == n as real - 1.5
    else at == from
  }

  /** A surface over the grid. */
  function Surface(p: real, q: real, r: real, s: real, x: real, y: real): real {
    p + q * x + (r + s * x) * y
  }

  /** Less than a cell apart. */
  predicate Near(i: nat, at: real) {
    -1.0 < i as real - at < 1.0
  }

  /** The field is this surface in the cells less than a cell away from a position. */
  ghost predicate SurfaceAround(w: nat, h: nat, d: seq<real>, ax: real, ay: real, p: real, q: real, r: real, s: real)
    requires |d| == Size(w, h)
  {
    forall x: nat, y: nat :: x < w && y < h && Near(x, ax) && Near(y, ay) ==>
      Cell(w, h, d, x, y) == Surface(p, q, r, s, x as real, y as real)
  }

  /** The border cells a velocity component is zeroed on. */
  predicate Border(w: nat, h: nat, b: nat, x: nat, y: nat) {
    (b == 1 && (x == 0 || x + 1 == w)) || (b == 2 && (y == 0 || y + 1 == h))
  }

  /** A sample stands for its position. */
  ghost predicate Placed(i: nat, j: nat, f: real, at: real) {
    if i == j then i == 0 && at == 0.0 else j == i + 1 && at == i as real + f && 0.0 <= f < 1.0
  }

  lemma SamplePlaced(n: nat, from: real, at: real)
    requires n > 0 && ReadAt(n, from, at)
    ensures var s := Sample(from, n); s.0 < n && s.1 < n && Placed(s.0, s.1, s.2, at)
  {
    if n > 1 {
      assert Clamp(from, n) == at;
      assert Truncate(at) as real <= at < Truncate(at) as real + 1.0;
      assert Truncate(at) + 1 < n;
    }
  }

  /** Along a line through the samples. */
  lemma OnLine(i: nat, j: nat, f: real, at: real, u: real, v: real, base: real, slope: real)
    requires Placed(i, j, f, at) && u == base + slope * i as real
    requires (i == j ==> u == v) && (i != j && f > 0.0 ==> v == base + slope * j as real)
    ensures Blend(u, v, f) == base + slope * at
  {
    if i == j {
      Whole(u, f);
    } else if f == 0.0 {
      assert v * f == 0.0;
    } else {
      assert v == u + slope;
      assert slope * at == slope * i as real + slope * f;
      assert u * (1.0 - f) == u - u * f;
      assert (u + slope) * f == u * f + slope * f;
    }
  }

  lemma PlacedNear(i: nat, j: nat, f: real, at: real)
    requires Placed(i, j, f, at)
    ensures Near(i, at) && (i != j && f > 0.0 ==> Near(j, at))
  {
  }

  /** A row of the surface between the two columns. */
  lemma RowBlend(w: nat, h: nat, d: seq<real>, ax: real, ay: real, p: real, q: real, r: real, s: real,
                 i: nat, j: nat, f: real, y: nat)
    requires |d| == Size(w, h) && SurfaceAround(w, h, d, ax, ay, p, q, r, s)
    requires i < w && j < w && y < h && Placed(i, j, f, ax) && Near(y, ay)
    ensures Blend(Cell(w, h, d, i, y), Cell(w, h, d, j, y), f) == Surface(p, q, r, s, ax, y as real)
  {
    hide Size, Cell, Blend, Near;
    PlacedNear(i, j, f, ax);
    AlongRow(p, q, r, s, i as real, y as real);
    AlongRow(p, q, r, s, j as real, y as real);
    AlongRow(p, q, r, s, ax, y as real);
    OnLine(i, j, f, ax, Cell(w, h, d, i, y), Cell(w, h, d, j, y), p + r * y as real, q + s * y as real);
  }

  lemma AlongRow(p: real, q: real, r: real, s: real, x: real, y: real)
    ensures Surface(p, q, r, s, x, y) == (p + r * y) + (q + s * y) * x
  {
    assert (r + s * x) * y == r * y + s * x * y;
    assert (q + s * y) * x == q * x + s * y * x;
  }

  lemma BilinearOnSurface(w: nat, h: nat, d: seq<real>, ax: real, ay: real, p: real, q: real, r: real, s: real,
                          px: (nat, nat, real), py: (nat, nat, real))
    requires |d| == Size(w, h) && SurfaceAround(w, h, d, ax, ay, p, q, r, s)
    requires px.0 < w && px.1 < w && py.0 < h && py.1 < h && Placed(px.0, px.1, px.2, ax) && Placed(py.0, py.1, py.2, ay)
    ensures Bilinear(w, h, d, px, py) == Surface(p, q, r, s, ax, ay)
  {
    hide Size, Cell, At, Blend, Near, Surface, Placed, SurfaceAround;
    CellAt(w, h, d, px.0, py.0);
    CellAt(w, h, d, px.1, py.0);
    CellAt(w, h, d, px.0, py.1);
    CellAt(w, h, d, px.1, py.1);
    PlacedNear(py.0, py.1, py.2, ay);
    RowBlend(w, h, d, ax, ay, p, q, r, s, px.0, px.1, px.2, py.0);
    var top := Blend(Cell(w, h, d, px.0, py.0), Cell(w, h, d, px.1, py.0), px.2);
    var bot := Blend(Cell(w, h, d, px.0, py.1), Cell(w, h, d, px.1, py.1), px.2);
    if py.0 != py.1 && py.2 > 0.0 {
      RowBlend(w, h, d, ax, ay, p, q, r, s, px.0, px.1, px.2, py.1);
    }
    SurfaceIs(p, q, r, s, ax, py.0 as real);
    SurfaceIs(p, q, r, s, ax, py.1 as real);
    SurfaceIs(p, q, r, s, ax, ay);
    OnLine(py.0, py.1, py.2, ay, top, bot, p + q * ax, r + s * ax);
  }

  lemma SurfaceIs(p: real, q: real, r: real, s: real, x: real, y: real)
    ensures Surface(p, q, r, s, x, y) == (p + q * x) + (r + s * x) * y
  {
  }

  /** The shorter side of the grid. */
  function Side(w: nat, h: nat): real {
    if w <= h then w as real else h as real
  }

  lemma BackIs(w: nat, h: nat, x: nat, dt: real, v: real)
    ensures Back(x, dt * Shorter(w, h), v) == x as real - dt * Side(w, h) * v
  {
    assert Side(w, h) == Shorter(w, h);
  }

  lemma TracedOnSurface(w: nat, h: nat, d0: seq<real>, vu: seq<real>, vv: seq<real>, dt: real, x: nat, y: nat,
                        fx: real, fy: real, ax: real, ay: real, p: real, q: real, r: real, s: real)
    requires x < w && y < h && Size(w, h) == |d0| == |vu| == |vv|
    requires fx == Back(x, dt * Shorter(w, h), Cell(w, h, vu, x, y))
    requires fy == Back(y, dt * Shorter(w, h), Cell(w, h, vv, x, y))
    requires ReadAt(w, fx, ax) && ReadAt(h, fy, ay) && SurfaceAround(w, h, d0, ax, ay, p, q, r, s)
    ensures Traced(w, h, d0, vu, vv, dt, x, y) == Surface(p, q, r, s, ax, ay)
  {
    hide Size, At, Sample, ReadAt, Bilinear, SurfaceAround, Surface, Placed, Shorter, Back;
    CellAt(w, h, vu, x, y);
    CellAt(w, h, vv, x, y);
    SamplePlaced(w, fx, ax);
    SamplePlaced(h, fy, ay);
    BilinearOnSurface(w, h, d0, ax, ay, p, q, r, s, Sample(fx, w), Sample(fy, h));
  }

  lemma CellOf(w: nat, h: nat, b: nat, d0: seq<real>, vu: seq<real>, vv: seq<real>, dt: real, x: nat, y: nat)
    requires x < w && y < h && Size(w, h) == |d0| == |vu| == |vv|
    ensures Cell(w, h, Bounded(w, h, b, Advected(w, h, d0, vu, vv, dt)), x, y) ==
            if Border(w, h, b, x, y) then 0.0 else Traced(w, h, d0, vu, vv, dt, x, y)
  {
    hide Size, At, Row, Col, Traced;
    Position(w, h, x, y);
    CellAt(w, h, Bounded(w, h, b, Advected(w, h, d0, vu, vv, dt)), x, y);
  }

  /** An advected cell off the border holds the field's value at the position its contents came
      from, against the velocity, interpolated between the cells around it. */
  lemma AdvectedCell(w: nat, h: nat, b: nat, d0: seq<real>, vu: seq<real>, vv: seq<real>, dt: real, x: nat, y: nat,
                     ax: real, ay: real, p: real, q: real, r: real, s: real)
    requires x < w && y < h && Size(w, h) == |d0| == |vu| == |vv|
    requires ReadAt(w, x as real - dt * Side(w, h) * Cell(w, h, vu, x, y), ax)
    requires ReadAt(h, y as real - dt * Side(w, h) * Cell(w, h, vv, x, y), ay)
    requires SurfaceAround(w, h, d0, ax, ay, p, q, r, s)
    ensures Cell(w, h, Bounded(w, h, b, Advected(w, h, d0, vu, vv, dt)), x, y) ==
            if Border(w, h, b, x, y) then 0.0 else Surface(p, q, r, s, ax, ay)
  {
    hide Size, Cell, ReadAt, SurfaceAround, Surface, Side, Shorter, Back, Traced, Bounded, Advected, Border;
    var fx, fy := x as real - dt * Side(w, h) * Cell(w, h, vu, x, y), y as real - dt * Side(w, h) * Cell(w, h, vv, x, y);
    BackIs(w, h, x, dt, Cell(w, h, vu, x, y));
    BackIs(w, h, y, dt, Cell(w, h, vv, x, y));
    TracedOnSurface(w, h, d0, vu, vv, dt, x, y, fx, fy, ax, ay, p, q, r, s);
    CellOf(w, h, b, d0, vu, vv, dt, x, y);
  }

  /** A field p + q x + r y is carried to its value at the position traced back. */
  lemma AffineIsCarried(w: nat, h: nat, d0: seq<real>, vu: seq<real>, vv: seq<real>, dt: real, x: nat, y: nat,
                        p: real, q: real, r: real)
    requires x < w && y < h && Size(w, h) == |d0| == |vu| == |vv|
    requires forall i: nat, j: nat :: i < w && j < h ==> Cell(w, h, d0, i, j) == p + q * i as real + r * j as real
    requires var sx := x as real - dt * Side(w, h) * Cell(w, h, vu, x, y);
             var sy := y as real - dt * Side(w, h) * Cell(w, h, vv, x, y);
             0.5 <= sx <= w as real - 1.5 && 0.5 <= sy <= h as real - 1.5
    ensures var sx := x as real - dt * Side(w, h) * Cell(w, h, vu, x, y);
            var sy := y as real - dt * Side(w, h) * Cell(w, h, vv, x, y);
            Cell(w, h, Bounded(w, h, 0, Advected(w, h, d0, vu, vv, dt)), x, y) == p + q * sx + r * sy
  {
    hide Size, Cell, Bounded, Advected;
    var sx, sy := x as real - dt * Side(w, h) * Cell(w, h, vu, x, y), y as real - dt * Side(w, h) * Cell(w, h, vv, x, y);
    AdvectedCell(w, h, 0, d0, vu, vv, dt, x, y, sx, sy, p, q, r, 0.0);
  }

  lemma Level(p: real, x: real, y: real)
    ensures Surface(p, 0.0, 0.0, 0.0, x, y) == p
  {
  }

  lemma LevelAround(w: nat, h: nat, d: seq<real>, x: nat, y: nat)
    requires x < w && y < h && |d| == Size(w, h)
    ensures SurfaceAround(w, h, d, x as real, y as real, Cell(w, h, d, x, y), 0.0, 0.0, 0.0)
  {
    hide Size, Cell, Surface;
    forall i: nat, j: nat | i < w && j < h && Near(i, x as real) && Near(j, y as real)
      ensures Cell(w, h, d, i, j) == Surface(Cell(w, h, d, x, y), 0.0, 0.0, 0.0, i as real, j as real)
    {
      Level(Cell(w, h, d, x, y), i as real, j as real);
    }
  }

  lemma WholeInside(n: nat, x: nat, k: int, moved: real)
    requires moved == k as real && 0 < x - k < n - 1
    ensures ReadAt(n, x as real - moved, (x - k) as real)
  {
  }

  /** A displacement by whole cells moves the contents of cells off the border unchanged. */
  lemma WholeCellsMove(w: nat, h: nat, d0: seq<real>, vu: seq<real>, vv: seq<real>, dt: real, x: nat, y: nat, k: int, l: int)
    requires x < w && y < h && Size(w, h) == |d0| == |vu| == |vv|
    requires dt * Side(w, h) * Cell(w, h, vu, x, y) == k as real && dt * Side(w, h) * Cell(w, h, vv, x, y) == l as real
    requires 0 < x - k < w - 1 && 0 < y - l < h - 1
    ensures Cell(w, h, Bounded(w, h, 0, Advected(w, h, d0, vu, vv, dt)), x, y) == Cell(w, h, d0, x - k, y - l)
  {
    hide Size, Cell, Bounded, Advected, Surface, SurfaceAround, Side, ReadAt;
    var cx: nat, cy: nat := x - k, y - l;
    WholeInside(w, x, k, dt * Side(w, h) * Cell(w, h, vu, x, y));
    WholeInside(h, y, l, dt * Side(w, h) * Cell(w, h, vv, x, y));
    LevelAround(w, h, d0, cx, cy);
    AdvectedCell(w, h, 0, d0, vu, vv, dt, x, y, cx as real, cy as real, Cell(w, h, d0, cx, cy), 0.0, 0.0, 0.0);
    Level(Cell(w, h, d0, cx, cy), cx as real, cy as real);
  }

  // ---- Diffusion ----

  /** Every cell of s solves (1 + 4a) s = x0 + a (left + right + up + down): new values to the left
      and above, old ones to the right and below, beyond the border the cell's own old value. */
  ghost predicate Solves(w: nat, h: nat, was: seq<real>, s: seq<real>, x0: seq<real>, a: real)
    requires |was| == |s| == |x0| == Size(w, h)
  {
    forall x: nat, y: nat :: x < w && y < h ==>
      (1.0 + 4.0 * a) * Cell(w, h, s, x, y) == Cell(w, h, x0, x, y) + a * Around4(w, h, was, s, x, y)
  }

  ghost function Around4(w: nat, h: nat, was: seq<real>, s: seq<real>, x: nat, y: nat): real
    requires |was| == |s| == Size(w, h) && x < w && y < h
  {
    var own := Cell(w, h, was, x, y);
    (if x > 0 then Cell(w, h, s, x - 1, y) else own) + (if x + 1 < w then Cell(w, h, was, x + 1, y) else own) +
    (if y > 0 then Cell(w, h, s, x, y - 1) else own) + (if y + 1 < h then Cell(w, h, was, x, y + 1) else own)
  }

  /** The same field with the component's border cells zeroed. */
  ghost predicate Zeroed(w: nat, h: nat, b: nat, s: seq<real>, r: seq<real>)
    requires |s| == |r| == Size(w, h)
  {
    forall x: nat, y: nat :: x < w && y < h ==>
      Cell(w, h, r, x, y) == if Border(w, h, b, x, y) then 0.0 else Cell(w, h, s, x, y)
  }

  /** k rounds of solving and zeroing lead from one field to another. */
  ghost predicate Relaxes(w: nat, h: nat, b: nat, from: seq<real>, to: seq<real>, x0: seq<real>, a: real, k: nat)
    requires |from| == |to| == |x0| == Size(w, h)
    decreases k
  {
    if k == 0 then to == from
    else
      exists mid: seq<real>, s: seq<real> :: |mid| == |s| == Size(w, h) &&
        Relaxes(w, h, b, from, mid, x0, a, k - 1) && Solves(w, h, mid, s, x0, a) && Zeroed(w, h, b, s, to)
  }

  lemma SweepSolves(w: nat, h: nat, x: seq<real>, x0: seq<real>, a: real)
    requires w > 0 && Size(w, h) == |x| == |x0| && a >= 0.0
    ensures 1.0 + 4.0 * a > 0.0 && Solves(w, h, x, Sweep(w, h, x, x0, a, 1.0 / (1.0 + 4.0 * a), Size(w, h)), x0, a)
  {
    hide Size, Sweep, Cell, Around4;
    var s := Sweep(w, h, x, x0, a, 1.0 / (1.0 + 4.0 * a), Size(w, h));
    forall cx: nat, cy: nat | cx < w && cy < h
      ensures (1.0 + 4.0 * a) * Cell(w, h, s, cx, cy) == Cell(w, h, x0, cx, cy) + a * Around4(w, h, x, s, cx, cy)
    {
      CellSolves(w, h, x, s, x0, a, cx, cy);
    }
  }

  lemma CellSolves(w: nat, h: nat, x: seq<real>, s: seq<real>, x0: seq<real>, a: real, cx: nat, cy: nat)
    requires w > 0 && Size(w, h) == |x| == |x0| == |s| && a >= 0.0 && 1.0 + 4.0 * a > 0.0 && cx < w && cy < h
    requires s == Sweep(w, h, x, x0, a, 1.0 / (1.0 + 4.0 * a), Size(w, h))
    ensures (1.0 + 4.0 * a) * Cell(w, h, s, cx, cy) == Cell(w, h, x0, cx, cy) + a * Around4(w, h, x, s, cx, cy)
  {
    hide Size, Sweep, At, Cell, Left, Right, Up, Down, Row, Col, Around4;
    Position(w, h, cx, cy);
    SweepIsGaussSeidel(w, h, x, x0, a, 1.0 / (1.0 + 4.0 * a), At(w, cx, cy));
    CellAt(w, h, s, cx, cy);
    CellAt(w, h, x0, cx, cy);
    NeighboursOf(w, h, x, s, cx, cy);
    Scale(1.0 + 4.0 * a, Cell(w, h, x0, cx, cy) + a * Around4(w, h, x, s, cx, cy));
  }

  /** The four neighbours, by index and by position. */
  lemma NeighboursOf(w: nat, h: nat, x: seq<real>, s: seq<real>, cx: nat, cy: nat)
    requires cx < w && cy < h && Size(w, h) == |x| == |s| && At(w, cx, cy) < Size(w, h)
    ensures var i := At(w, cx, cy);
            (if Col(w, i) > 0 then s[Left(w, h, i)] else x[i]) + x[Right(w, h, i)] +
            (if Row(w, i) > 0 then s[Up(w, h, i)] else x[i]) + x[Down(w, h, i)] == Around4(w, h, x, s, cx, cy)
  {
    hide Size, At, Cell, Left, Right, Up, Down, Row, Col;
    Position(w, h, cx, cy);
    Neighbours(w, h, cx, cy);
    CellAt(w, h, x, cx, cy);
    if cx > 0 { CellAt(w, h, s, cx - 1, cy); }
    if cx + 1 < w { CellAt(w, h, x, cx + 1, cy); }
    if cy > 0 { CellAt(w, h, s, cx, cy - 1); }
    if cy + 1 < h { CellAt(w, h, x, cx, cy + 1); }
  }

  lemma Scale(c: real, v: real)
    requires c > 0.0
    ensures c * (v * (1.0 / c)) == v
  {
    assert c * (1.0 / c) == 1.0;
    assert c * (v * (1.0 / c)) == v * (c * (1.0 / c));
  }

  lemma BoundedIsZeroed(w: nat, h: nat, b: nat, s: seq<real>)
    requires w > 0 && |s| == Size(w, h)
    ensures Zeroed(w, h, b, s, Bounded(w, h, b, s))
  {
    hide Size, At, Row, Col, Cell;
    forall x: nat, y: nat | x < w && y < h
      ensures Cell(w, h, Bounded(w, h, b, s), x, y) == if Border(w, h, b, x, y) then 0.0 else Cell(w, h, s, x, y)
    {
      Position(w, h, x, y);
      CellAt(w, h, s, x, y);
      CellAt(w, h, Bounded(w, h, b, s), x, y);
    }
  }

  lemma {:induction false} SolvedRelaxes(w: nat, h: nat, b: nat, x: seq<real>, x0: seq<real>, a: real, k: nat)
    requires w > 0 && Size(w, h) == |x| == |x0| && a >= 0.0
    ensures 1.0 + 4.0 * a > 0.0 && Relaxes(w, h, b, x, Solved(w, h, b, x, x0, a, 1.0 / (1.0 + 4.0 * a), k), x0, a, k)
  {
    hide Size, Sweep, Bounded, Solves, Zeroed;
    if k > 0 {
      SolvedRelaxes(w, h, b, x, x0, a, k - 1);
      var mid := Solved(w, h, b, x, x0, a, 1.0 / (1.0 + 4.0 * a), k - 1);
      SweepSolves(w, h, mid, x0, a);
      BoundedIsZeroed(w, h, b, Sweep(w, h, mid, x0, a, 1.0 / (1.0 + 4.0 * a), Size(w, h)));
    }
  }

  lemma StrengthIs(w: nat, h: nat, diff: real, dt: real)
    requires dt >= 0.0 && diff > 0.0
    ensures Strength(w, h, diff, dt) == dt * diff * Side(w, h) * Side(w, h)
  {
  }

  /** Diffusion is five rounds of the implicit equation whose strength is dt * diff times the square
      of the shorter side; a rate of 0 or below leaves the source, its border zeroed. */
  lemma DiffusionEquation(w: nat, h: nat, b: nat, x: seq<real>, x0: seq<real>, diff: real, dt: real)
    requires w > 0 && h > 0 && Size(w, h) == |x| == |x0| && dt >= 0.0
    ensures var r := Diffused(w, h, b, x, x0, diff, dt);
            if diff <= 0.0 then Zeroed(w, h, b, x0, r)
            else Relaxes(w, h, b, x, r, x0, dt * diff * Side(w, h) * Side(w, h), 5)
  {
    hide Size, Bounded, Solved, Zeroed, Relaxes;
    if diff <= 0.0 {
      BoundedIsZeroed(w, h, b, x0);
    } else {
      StrengthIs(w, h, diff, dt);
      SolvedRelaxes(w, h, b, x, x0, Strength(w, h, diff, dt), 5);
    }
  }

  // ---- A frame ----

  /** A channel through a frame: the field is diffused unless the rate is 0 or below; what flows
      into a cell off the border comes from whole cells up the stream, and the share fd of it stays. */
  lemma DyeFlows(w: nat, h: nat, s: seq<real>, vu: seq<real>, vv: seq<real>, diffusion: real, dt: real, fd: real)
    returns (spread: seq<real>)
    requires w > 0 && h > 0 && Size(w, h) == |s| == |vu| == |vv| && dt >= 0.0
    ensures |spread| == Size(w, h)
    ensures if diffusion <= 0.0 then spread == s
            else Relaxes(w, h, 0, s, spread, s, dt * diffusion * Side(w, h) * Side(w, h), 5)
    ensures forall x: nat, y: nat, k: int, l: int ::
              x < w && y < h && 0 < x - k < w - 1 && 0 < y - l < h - 1 &&
              Moves(w, h, vu, dt, x, y, k) && Moves(w, h, vv, dt, x, y, l) ==>
                Cell(w, h, DyeStep(w, h, s, vu, vv, diffusion, dt, fd), x, y) == Cell(w, h, spread, x - k, y - l) * fd
  {
    hide Size, Cell, Diffused, Bounded, Advected, Scaled, Relaxes, Side;
    spread := if diffusion > 0.0 then Diffused(w, h, 0, s, s, diffusion, dt) else s;
    DiffusionEquation(w, h, 0, s, s, diffusion, dt);
    forall x: nat, y: nat, k: int, l: int |
      x < w && y < h && 0 < x - k < w - 1 && 0 < y - l < h - 1 &&
      Moves(w, h, vu, dt, x, y, k) && Moves(w, h, vv, dt, x, y, l)
      ensures Cell(w, h, DyeStep(w, h, s, vu, vv, diffusion, dt, fd), x, y) == Cell(w, h, spread, x - k, y - l) * fd
    {
      WholeCellsMove(w, h, spread, vu, vv, dt, x, y, k, l);
      ScaledCell(w, h, Bounded(w, h, 0, Advected(w, h, spread, vu, vv, dt)), fd, x, y);
    }
  }

  /** A velocity component moves the contents of a cell by k cells in a frame. */
  ghost predicate Moves(w: nat, h: nat, v: seq<real>, dt: real, x: nat, y: nat, k: int)
    requires x < w && y < h && |v| == Size(w, h)
  {
    dt * Side(w, h) * Cell(w, h, v, x, y) == k as real
  }

  lemma ScaledCell(w: nat, h: nat, s: seq<real>, f: real, x: nat, y: nat)
    requires x < w && y < h && |s| == Size(w, h)
    ensures Cell(w, h, Scaled(s, f), x, y) == Cell(w, h, s, x, y) * f
  {
    hide Size, At;
    CellAt(w, h, s, x, y);
    CellAt(w, h, Scaled(s, f), x, y);
    ScaledAt(s, f, At(w, x, y));
  }
}
