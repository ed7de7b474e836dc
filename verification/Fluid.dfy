/** The stable-fluids kernels of the flow effect, over the reals: in-place Gauss-Seidel diffusion
    and clamped bilinear advection on a flat w by h array.  */
module Fluids {
  import opened Arithmetic

  // ---- The grid ----

  function Size(w: nat, h: nat): nat {
    w * h
  }

  function At(w: nat, x: nat, y: nat): nat {
    y * w + x
  }

  function Col(w: nat, i: nat): nat
    requires w > 0
  {
    i % w
  }

  function Row(w: nat, i: nat): nat
    requires w > 0
  {
    i / w
  }

  /** Cells are numbered row by row. */
  lemma Position(w: nat, h: nat, x: nat, y: nat)
    requires x < w && y < h
    ensures At(w, x, y) < Size(w, h) && Col(w, At(w, x, y)) == x && Row(w, At(w, x, y)) == y
  {
    ProductOrder(y + 1, h, w);
    ProductNext(y, w);
    Quotient(y * w + x, w, y, x);
  }

  lemma Coordinates(w: nat, h: nat, i: nat)
    requires w > 0 && i < Size(w, h)
    ensures Col(w, i) < w && Row(w, i) < h && i == At(w, Col(w, i), Row(w, i))
  {
    if i / w >= h {
      ProductOrder(h, i / w, w);
    }
  }

  /** Index order: the next cell of a row, the start of the next row, the end. */
  lemma IndexOrder(w: nat, h: nat, x: nat, y: nat)
    requires x < w && y < h
    ensures At(w, x + 1, y) == At(w, x, y) + 1 <= Size(w, h) && At(w, w, y) == At(w, 0, y + 1) <= Size(w, h)
    ensures At(w, 0, 0) == 0 && At(w, 0, h) == Size(w, h)
    ensures x > 0 ==> At(w, x - 1, y) == At(w, x, y) - 1
    ensures y > 0 ==> At(w, x, y) >= w && At(w, x, y - 1) == At(w, x, y) - w
    ensures At(w, x, y + 1) == At(w, x, y) + w
  {
    ProductOrder(y + 1, h, w);
    ProductOrder(1, y + 1, w);
    assert (y + 1) * w == y * w + w;
    if y > 0 {
      assert (y - 1) * w == y * w - w;
      ProductOrder(1, y, w);
    }
  }

  /** The cell left of i, or i itself at the border; and so on. */
  function Left(w: nat, h: nat, i: nat): (j: nat)
    requires w > 0 && i < Size(w, h)
    ensures j < Size(w, h) && j <= i
  {
    Coordinates(w, h, i);
    if Col(w, i) > 0 then Position(w, h, Col(w, i) - 1, Row(w, i)); IndexOrder(w, h, Col(w, i), Row(w, i)); i - 1 else i
  }

  function Right(w: nat, h: nat, i: nat): (j: nat)
    requires w > 0 && i < Size(w, h)
    ensures i <= j < Size(w, h)
  {
    Coordinates(w, h, i);
    if Col(w, i) < w - 1 then Position(w, h, Col(w, i) + 1, Row(w, i)); IndexOrder(w, h, Col(w, i), Row(w, i)); i + 1 else i
  }

  function Up(w: nat, h: nat, i: nat): (j: nat)
    requires w > 0 && i < Size(w, h)
    ensures j < Size(w, h) && j <= i
  {
    Coordinates(w, h, i);
    if Row(w, i) > 0 then Position(w, h, Col(w, i), Row(w, i) - 1); IndexOrder(w, h, Col(w, i), Row(w, i)); i - w else i
  }

  function Down(w: nat, h: nat, i: nat): (j: nat)
    requires w > 0 && i < Size(w, h)
    ensures i <= j < Size(w, h)
  {
    Coordinates(w, h, i);
    if Row(w, i) < h - 1 then Position(w, h, Col(w, i), Row(w, i) + 1); IndexOrder(w, h, Col(w, i), Row(w, i)); i + w else i
  }

  lemma Neighbours(w: nat, h: nat, x: nat, y: nat)
    requires x < w && y < h
    ensures var i := At(w, x, y);
            && i < Size(w, h)
            && Left(w, h, i) == (if x > 0 then At(w, x - 1, y) else i)
            && Right(w, h, i) == (if x < w - 1 then At(w, x + 1, y) else i)
            && Up(w, h, i) == (if y > 0 then At(w, x, y - 1) else i)
            && Down(w, h, i) == (if y < h - 1 then At(w, x, y + 1) else i)
  {
    hide At, Col, Row, Size;
    Position(w, h, x, y);
    IndexOrder(w, h, x, y);
  }

  ghost predicate Within(s: seq<real>, lo: real, hi: real) {
    forall i :: 0 <= i < |s| ==> lo <= s[i] <= hi
  }

  // ---- Boundary ----

  /** The border cells held at zero: side columns for the horizontal velocity (1), top and bottom
      rows for the vertical (2), none for dye (0). */
  predicate OnEdge(w: nat, h: nat, b: nat, i: nat)
    requires w > 0
  {
    (b == 1 && (Col(w, i) == 0 || Col(w, i) == w - 1)) || (b == 2 && (Row(w, i) == 0 || Row(w, i) == h - 1))
  }

  function Bounded(w: nat, h: nat, b: nat, s: seq<real>): (r: seq<real>)
    requires w > 0
    ensures |r| == |s|
  {
    seq(|s|, i requires 0 <= i < |s| => if OnEdge(w, h, b, i) then 0.0 else s[i])
  }

  // ---- Diffusion ----

  function Relax(own: real, a: real, sum: real, invC: real): real {
    (own + a * sum) * invC
  }

  /** One cell's new value from the field as it stands. */
  function Relaxed(w: nat, h: nat, x: seq<real>, x0: seq<real>, a: real, invC: real, i: nat): real
    requires w > 0 && i < Size(w, h) == |x| == |x0|
  {
    Relax(x0[i], a, x[Left(w, h, i)] + x[Right(w, h, i)] + x[Up(w, h, i)] + x[Down(w, h, i)], invC)
  }

  /** The first n cells relaxed in place, in index order. */
  function Sweep(w: nat, h: nat, x: seq<real>, x0: seq<real>, a: real, invC: real, n: nat): (r: seq<real>)
    requires w > 0 && n <= Size(w, h) == |x| == |x0|
    ensures |r| == |x|
  {
    if n == 0 then x
    else
      var before := Sweep(w, h, x, x0, a, invC, n - 1);
      before[n - 1 := Relaxed(w, h, before, x0, a, invC, n - 1)]
  }

  /** k sweeps, the border reset after each. */
  function Solved(w: nat, h: nat, b: nat, x: seq<real>, x0: seq<real>, a: real, invC: real, k: nat): (r: seq<real>)
    requires w > 0 && Size(w, h) == |x| == |x0|
    ensures |r| == |x|
  {
    if k == 0 then x
    else Bounded(w, h, b, Sweep(w, h, Solved(w, h, b, x, x0, a, invC, k - 1), x0, a, invC, Size(w, h)))
  }

  const SWEEPS := 5

  function Diffused(w: nat, h: nat, b: nat, x: seq<real>, x0: seq<real>, diff: real, dt: real): (r: seq<real>)
    requires w > 0 && Size(w, h) == |x| == |x0| && dt >= 0.0
    ensures |r| == |x|
  {
    if diff <= 0.0 then Bounded(w, h, b, x0)
    else
      var a := Strength(w, h, diff, dt);
      Solved(w, h, b, x, x0, a, 1.0 / (1.0 + 4.0 * a), SWEEPS)
  }

  function Shorter(w: nat, h: nat): real {
    (if w < h then w else h) as real
  }

  function Strength(w: nat, h: nat, diff: real, dt: real): (a: real)
    requires dt >= 0.0 && diff > 0.0
    ensures a >= 0.0
  {
    var sz := Shorter(w, h);
    TimesPositive(dt, diff);
    TimesPositive(dt * diff, sz);
    TimesPositive(dt * diff * sz, sz);
    dt * diff * sz * sz
  }

  lemma TimesPositive(p: real, q: real)
    requires p >= 0.0 && q >= 0.0
    ensures p * q >= 0.0
  {
  }

  lemma TimesOrder(p: real, q: real, f: real)
    requires p <= q && f >= 0.0
    ensures p * f <= q * f
  {
  }

  // ---- Gauss-Seidel ----

  lemma {:induction false} SweepKeeps(w: nat, h: nat, x: seq<real>, x0: seq<real>, a: real, invC: real, m: nat, n: nat, i: nat)
    requires w > 0 && m <= n <= Size(w, h) == |x| == |x0| && i < Size(w, h) && !(m <= i < n)
    ensures Sweep(w, h, x, x0, a, invC, n)[i] == Sweep(w, h, x, x0, a, invC, m)[i]
    decreases n
  {
    if m < n {
      SweepKeeps(w, h, x, x0, a, invC, m, n - 1, i);
    }
  }

  /** The Gauss-Seidel equation of a cell: the already new values s to its left and above, the old
      ones x to its right and below; a missing neighbour is the cell's own old value. */
  function GaussSeidel(w: nat, h: nat, x: seq<real>, s: seq<real>, x0: seq<real>, a: real, invC: real, i: nat): real
    requires w > 0 && i < Size(w, h) == |x| == |s| == |x0|
  {
    var left := if Col(w, i) > 0 then s[Left(w, h, i)] else x[i];
    var up := if Row(w, i) > 0 then s[Up(w, h, i)] else x[i];
    Relax(x0[i], a, left + x[Right(w, h, i)] + up + x[Down(w, h, i)], invC)
  }

  /** A sweep solves that equation in every cell. */
  lemma SweepIsGaussSeidel(w: nat, h: nat, x: seq<real>, x0: seq<real>, a: real, invC: real, i: nat)
    requires w > 0 && i < Size(w, h) == |x| == |x0|
    ensures var s := Sweep(w, h, x, x0, a, invC, Size(w, h)); s[i] == GaussSeidel(w, h, x, s, x0, a, invC, i)
  {
    hide Sweep, Relax, Size, Col, Row;
    var before := Sweep(w, h, x, x0, a, invC, i);
    SweepStep(w, h, x, x0, a, invC, i);
    SweepKeeps(w, h, x, x0, a, invC, i + 1, Size(w, h), i);
    SweepStart(w, h, x, x0, a, invC);
    if Col(w, i) > 0 {
      SweepKeeps(w, h, x, x0, a, invC, i, Size(w, h), Left(w, h, i));
    }
    if Row(w, i) > 0 {
      SweepKeeps(w, h, x, x0, a, invC, i, Size(w, h), Up(w, h, i));
    }
    SweepKeeps(w, h, x, x0, a, invC, 0, i, i);
    SweepKeeps(w, h, x, x0, a, invC, 0, i, Right(w, h, i));
    SweepKeeps(w, h, x, x0, a, invC, 0, i, Down(w, h, i));
  }

  lemma SweepStart(w: nat, h: nat, x: seq<real>, x0: seq<real>, a: real, invC: real)
    requires w > 0 && Size(w, h) == |x| == |x0|
    ensures Sweep(w, h, x, x0, a, invC, 0) == x
  {
  }

  lemma SweepStep(w: nat, h: nat, x: seq<real>, x0: seq<real>, a: real, invC: real, i: nat)
    requires w > 0 && i < Size(w, h) == |x| == |x0|
    ensures var before := Sweep(w, h, x, x0, a, invC, i);
            Sweep(w, h, x, x0, a, invC, i + 1) == before[i := Relaxed(w, h, before, x0, a, invC, i)]
  {
  }

  // ---- No new extrema ----

  lemma RelaxedWithin(a: real, own: real, sum: real, lo: real, hi: real)
    requires a >= 0.0 && lo <= own <= hi && 4.0 * lo <= sum <= 4.0 * hi
    ensures 1.0 + 4.0 * a > 0.0 && lo <= Relax(own, a, sum, 1.0 / (1.0 + 4.0 * a)) <= hi
  {
    var c := 1.0 + 4.0 * a;
    var f := 1.0 / c;
    assert f * c == 1.0;
    TimesOrder(4.0 * lo, sum, a);
    TimesOrder(sum, 4.0 * hi, a);
    assert lo * c == lo + a * (4.0 * lo) && hi * c == hi + a * (4.0 * hi);
    TimesOrder(lo * c, own + a * sum, f);
    TimesOrder(own + a * sum, hi * c, f);
    Cancel(lo, c, f);
    Cancel(hi, c, f);
  }

  lemma Cancel(v: real, c: real, f: real)
    requires f * c == 1.0
    ensures v * c * f == v
  {
    assert v * c * f == v * (c * f);
  }

  lemma CellWithin(w: nat, h: nat, x: seq<real>, x0: seq<real>, a: real, i: nat, lo: real, hi: real)
    requires w > 0 && i < Size(w, h) == |x| == |x0| && a >= 0.0 && Within(x, lo, hi) && Within(x0, lo, hi)
    ensures 1.0 + 4.0 * a > 0.0 && lo <= Relaxed(w, h, x, x0, a, 1.0 / (1.0 + 4.0 * a), i) <= hi
  {
    hide Left, Right, Up, Down, Relax;
    var sum := x[Left(w, h, i)] + x[Right(w, h, i)] + x[Up(w, h, i)] + x[Down(w, h, i)];
    RelaxedWithin(a, x0[i], sum, lo, hi);
  }

  lemma {:induction false} SweepWithin(w: nat, h: nat, x: seq<real>, x0: seq<real>, a: real, n: nat, lo: real, hi: real)
    requires w > 0 && n <= Size(w, h) == |x| == |x0| && a >= 0.0 && Within(x, lo, hi) && Within(x0, lo, hi)
    ensures Within(Sweep(w, h, x, x0, a, 1.0 / (1.0 + 4.0 * a), n), lo, hi)
  {
    hide Relaxed;
    if n > 0 {
      SweepWithin(w, h, x, x0, a, n - 1, lo, hi);
      CellWithin(w, h, Sweep(w, h, x, x0, a, 1.0 / (1.0 + 4.0 * a), n - 1), x0, a, n - 1, lo, hi);
    }
  }

  lemma BoundedWithin(w: nat, h: nat, b: nat, s: seq<real>, lo: real, hi: real)
    requires w > 0 && Within(s, lo, hi) && (b == 1 || b == 2 ==> lo <= 0.0 <= hi)
    ensures Within(Bounded(w, h, b, s), lo, hi)
  {
  }

  lemma {:induction false} SolvedWithin(w: nat, h: nat, b: nat, x: seq<real>, x0: seq<real>, a: real, k: nat, lo: real, hi: real)
    requires w > 0 && Size(w, h) == |x| == |x0| && a >= 0.0 && Within(x, lo, hi) && Within(x0, lo, hi)
    requires b == 1 || b == 2 ==> lo <= 0.0 <= hi
    ensures Within(Solved(w, h, b, x, x0, a, 1.0 / (1.0 + 4.0 * a), k), lo, hi)
  {
    if k > 0 {
      SolvedWithin(w, h, b, x, x0, a, k - 1, lo, hi);
      var before := Solved(w, h, b, x, x0, a, 1.0 / (1.0 + 4.0 * a), k - 1);
      SweepWithin(w, h, before, x0, a, Size(w, h), lo, hi);
      BoundedWithin(w, h, b, Sweep(w, h, before, x0, a, 1.0 / (1.0 + 4.0 * a), Size(w, h)), lo, hi);
    }
  }

  /** Diffusion creates no value outside the range of the field and its source. */
  lemma DiffusedWithin(w: nat, h: nat, b: nat, x: seq<real>, x0: seq<real>, diff: real, dt: real, lo: real, hi: real)
    requires w > 0 && Size(w, h) == |x| == |x0| && dt >= 0.0 && Within(x, lo, hi) && Within(x0, lo, hi)
    requires b == 1 || b == 2 ==> lo <= 0.0 <= hi
    ensures Within(Diffused(w, h, b, x, x0, diff, dt), lo, hi)
  {
    if diff <= 0.0 {
      BoundedWithin(w, h, b, x0, lo, hi);
    } else {
      SolvedWithin(w, h, b, x, x0, Strength(w, h, diff, dt), SWEEPS, lo, hi);
    }
  }

  // ---- Advection ----

  /** Conversion to an integer drops the fraction, toward zero. */
  function Truncate(r: real): int {
    if r >= 0.0 then r.Floor else -((-r).Floor)
  }

  /** The sampling position kept off the border; the lower bound is tested first. */
  function Clamp(s: real, size: nat): (c: real)
    requires size > 0
    ensures size == 1 ==> c == 0.5 || c == -0.5
    ensures size > 1 ==> 0.5 <= c <= size as real - 1.5
  {
    if s < 0.5 then 0.5 else if s > size as real - 1.5 then size as real - 1.5 else s
  }

  function Next(i: nat, size: nat): (j: nat)
    requires i < size
    ensures j < size
  {
    if i + 1 < size then i + 1 else size - 1
  }

  function Blend(p: real, q: real, f: real): real {
    p * (1.0 - f) + q * f
  }

  /** Where a cell looks: the two cell indices along one axis and the weight of the second. */
  function Sample(s: real, size: nat): (r: (nat, nat, real))
    requires size > 0
    ensures r.0 < size && r.1 < size && (0.0 <= r.2 <= 1.0 || r.0 == r.1)
  {
    var c := Clamp(s, size);
    var i := Truncate(c);
    (i, Next(i, size), c - i as real)
  }

  /** Bilinear interpolation between four cells. */
  function Bilinear(w: nat, h: nat, d0: seq<real>, px: (nat, nat, real), py: (nat, nat, real)): real
    requires px.0 < w && px.1 < w && py.0 < h && py.1 < h && |d0| == Size(w, h)
  {
    Position(w, h, px.0, py.0);
    Position(w, h, px.1, py.0);
    Position(w, h, px.0, py.1);
    Position(w, h, px.1, py.1);
    var top := Blend(d0[At(w, px.0, py.0)], d0[At(w, px.1, py.0)], px.2);
    var bot := Blend(d0[At(w, px.0, py.1)], d0[At(w, px.1, py.1)], px.2);
    Blend(top, bot, py.2)
  }

  /** Where a position came from along one axis. */
  function Back(x: nat, dt0: real, v: real): real {
    x as real - dt0 * v
  }

  /** A cell traced back along the velocity for the time step. */
  function Traced(w: nat, h: nat, d0: seq<real>, vu: seq<real>, vv: seq<real>, dt: real, x: nat, y: nat): real
    requires x < w && y < h && Size(w, h) == |d0| == |vu| == |vv|
  {
    Position(w, h, x, y);
    var dt0 := dt * Shorter(w, h);
    Bilinear(w, h, d0, Sample(Back(x, dt0, vu[At(w, x, y)]), w), Sample(Back(y, dt0, vv[At(w, x, y)]), h))
  }

  function Advected(w: nat, h: nat, d0: seq<real>, vu: seq<real>, vv: seq<real>, dt: real): (r: seq<real>)
    requires w > 0 && Size(w, h) == |d0| == |vu| == |vv|
    ensures |r| == |d0|
  {
    seq(|d0|, i requires 0 <= i < |d0| =>
      Coordinates(w, h, i); Traced(w, h, d0, vu, vv, dt, Col(w, i), Row(w, i)))
  }

  lemma Whole(v: real, f: real)
    ensures v * (1.0 - f) + v * f == v
  {
  }

  lemma Spread(p: real, q: real, v: real, f: real)
    ensures p * (1.0 - f) + q * f == v + ((p - v) * (1.0 - f) + (q - v) * f)
  {
    Whole(v, f);
    assert (p - v) * (1.0 - f) == p * (1.0 - f) - v * (1.0 - f);
    assert (q - v) * f == q * f - v * f;
  }

  lemma BlendWithin(p: real, q: real, f: real, lo: real, hi: real)
    requires lo <= p <= hi && lo <= q <= hi && (0.0 <= f <= 1.0 || p == q)
    ensures lo <= Blend(p, q, f) <= hi
  {
    if p == q {
      Whole(p, f);
    } else {
      Spread(p, q, lo, f);
      TimesPositive(p - lo, 1.0 - f);
      TimesPositive(q - lo, f);
      Spread(p, q, hi, f);
      TimesPositive(hi - p, 1.0 - f);
      TimesPositive(hi - q, f);
      Negated(hi - p, 1.0 - f);
      Negated(hi - q, f);
    }
  }

  lemma Negated(p: real, f: real)
    ensures -p * f == -(p * f)
  {
  }

  ghost predicate Sampled(p: (nat, nat, real), size: nat) {
    p.0 < size && p.1 < size && (0.0 <= p.2 <= 1.0 || p.0 == p.1)
  }

  lemma BilinearWithin(w: nat, h: nat, d0: seq<real>, px: (nat, nat, real), py: (nat, nat, real), lo: real, hi: real)
    requires Sampled(px, w) && Sampled(py, h) && |d0| == Size(w, h) && Within(d0, lo, hi)
    ensures lo <= Bilinear(w, h, d0, px, py) <= hi
  {
    hide Blend, At;
    Position(w, h, px.0, py.0);
    Position(w, h, px.1, py.0);
    Position(w, h, px.0, py.1);
    Position(w, h, px.1, py.1);
    var top := Blend(d0[At(w, px.0, py.0)], d0[At(w, px.1, py.0)], px.2);
    var bot := Blend(d0[At(w, px.0, py.1)], d0[At(w, px.1, py.1)], px.2);
    BlendWithin(d0[At(w, px.0, py.0)], d0[At(w, px.1, py.0)], px.2, lo, hi);
    BlendWithin(d0[At(w, px.0, py.1)], d0[At(w, px.1, py.1)], px.2, lo, hi);
    BlendWithin(top, bot, py.2, lo, hi);
  }

  lemma TracedWithin(w: nat, h: nat, d0: seq<real>, vu: seq<real>, vv: seq<real>, dt: real, x: nat, y: nat, lo: real, hi: real)
    requires x < w && y < h && Size(w, h) == |d0| == |vu| == |vv| && Within(d0, lo, hi)
    ensures lo <= Traced(w, h, d0, vu, vv, dt, x, y) <= hi
  {
    hide Bilinear, Sample, Within, Back;
    Position(w, h, x, y);
    var dt0 := dt * Shorter(w, h);
    BilinearWithin(w, h, d0, Sample(Back(x, dt0, vu[At(w, x, y)]), w), Sample(Back(y, dt0, vv[At(w, x, y)]), h), lo, hi);
  }

  /** Advection by any velocity creates no value outside the field's range. */
  lemma AdvectedWithin(w: nat, h: nat, b: nat, d0: seq<real>, vu: seq<real>, vv: seq<real>, dt: real, lo: real, hi: real)
    requires w > 0 && Size(w, h) == |d0| == |vu| == |vv| && Within(d0, lo, hi)
    requires b == 1 || b == 2 ==> lo <= 0.0 <= hi
    ensures Within(Bounded(w, h, b, Advected(w, h, d0, vu, vv, dt)), lo, hi)
  {
    hide Traced, Bounded;
    var r := Advected(w, h, d0, vu, vv, dt);
    forall i | 0 <= i < |r| ensures lo <= r[i] <= hi {
      Coordinates(w, h, i);
      TracedWithin(w, h, d0, vu, vv, dt, Col(w, i), Row(w, i), lo, hi);
    }
    BoundedWithin(w, h, b, r, lo, hi);
  }
}
