/** The flow effect's field arrays and the dye half of a frame.  */
module FlowFluids {
  import opened Fluids

  /** One channel through a frame: diffusion if any, advection by the velocity, dissipation. */
  function DyeStep(w: nat, h: nat, s: seq<real>, vu: seq<real>, vv: seq<real>, diffusion: real, dt: real, fd: real): (r: seq<real>)
    requires w > 0 && Size(w, h) == |s| == |vu| == |vv| && dt >= 0.0
    ensures |r| == |s|
  {
    var spread := if diffusion > 0.0 then Diffused(w, h, 0, s, s, diffusion, dt) else s;
    Scaled(Bounded(w, h, 0, Advected(w, h, spread, vu, vv, dt)), fd)
  }

  function Scaled(s: seq<real>, f: real): (r: seq<real>)
    ensures |r| == |s|
  {
    seq(|s|, i requires 0 <= i < |s| => s[i] * f)
  }

  lemma ScaledWithin(s: seq<real>, f: real, hi: real)
    requires Within(s, 0.0, hi) && f >= 0.0
    ensures Within(Scaled(s, f), 0.0, hi * f)
  {
    forall i | 0 <= i < |s| ensures 0.0 <= s[i] * f <= hi * f {
      TimesPositive(s[i], f);
      TimesOrder(s[i], hi, f);
    }
  }

  /** A frame keeps dye non-negative and its maximum shrinks by the dissipation factor. */
  lemma DyeStepWithin(w: nat, h: nat, s: seq<real>, vu: seq<real>, vv: seq<real>, diffusion: real, dt: real, fd: real, hi: real)
    requires w > 0 && Size(w, h) == |s| == |vu| == |vv| && dt >= 0.0 && fd >= 0.0 && Within(s, 0.0, hi)
    ensures Within(DyeStep(w, h, s, vu, vv, diffusion, dt, fd), 0.0, hi * fd)
  {
    hide Diffused, Advected, Bounded, Within, Scaled;
    var spread := if diffusion > 0.0 then Diffused(w, h, 0, s, s, diffusion, dt) else s;
    if diffusion > 0.0 {
      DiffusedWithin(w, h, 0, s, s, diffusion, dt, 0.0, hi);
    }
    AdvectedWithin(w, h, 0, spread, vu, vv, dt, 0.0, hi);
    ScaledWithin(Bounded(w, h, 0, Advected(w, h, spread, vu, vv, dt)), fd, hi);
  }

  // ---- Whole runs ----

  /** What a frame brings: the dye the emitter adds to each cell, the velocity it ends with, and
      the frame's parameters. */
  datatype Frame = Frame(added: seq<real>, vu: seq<real>, vv: seq<real>, diffusion: real, dt: real, fd: real)

  predicate Fitting(w: nat, h: nat, f: Frame) {
    |f.added| == |f.vu| == |f.vv| == Size(w, h) && f.dt >= 0.0
  }

  ghost predicate Usable(w: nat, h: nat, f: Frame, most: real, keep: real) {
    Fitting(w, h, f) && Within(f.added, 0.0, most) && 0.0 <= f.fd <= keep
  }

  function Sum(s: seq<real>, t: seq<real>): (r: seq<real>)
    requires |s| == |t|
    ensures |r| == |s|
  {
    seq(|s|, i requires 0 <= i < |s| => s[i] + t[i])
  }

  /** A channel after a run of frames, from an empty field. */
  function DyeRun(w: nat, h: nat, frames: seq<Frame>): (r: seq<real>)
    requires w > 0
    requires forall i :: 0 <= i < |frames| ==> Fitting(w, h, frames[i])
    ensures |r| == Size(w, h)
  {
    if frames == [] then seq(Size(w, h), _ => 0.0)
    else
      var f, front := frames[|frames| - 1], frames[..|frames| - 1];
      assert forall i :: 0 <= i < |front| ==> front[i] == frames[i];
      assert Fitting(w, h, f);
      var before := DyeRun(w, h, front);
      DyeStep(w, h, Sum(before, f.added), f.vu, f.vv, f.diffusion, f.dt, f.fd)
  }

  lemma SumWithin(s: seq<real>, t: seq<real>, hi: real, most: real)
    requires |s| == |t| && Within(s, 0.0, hi) && Within(t, 0.0, most)
    ensures Within(Sum(s, t), 0.0, hi + most)
  {
  }

  /** In every run whose emitter adds at most `most` to a cell and whose frames keep at most the
      share `keep` < 1, no cell ever leaves [0, most * keep / (1 - keep)]: the level at which a
      frame loses what it gains. */
  lemma {:induction false} DyeStaysBounded(w: nat, h: nat, frames: seq<Frame>, most: real, keep: real, level: real)
    requires w > 0 && most >= 0.0 && 0.0 <= keep < 1.0 && level >= 0.0 && level * (1.0 - keep) == most * keep
    requires forall i :: 0 <= i < |frames| ==> Fitting(w, h, frames[i]) && Usable(w, h, frames[i], most, keep)
    ensures Within(DyeRun(w, h, frames), 0.0, level)
  {
    hide DyeStep, Sum;
    if frames != [] {
      var front, f := frames[..|frames| - 1], frames[|frames| - 1];
      assert forall i :: 0 <= i < |front| ==> front[i] == frames[i];
      DyeStaysBounded(w, h, front, most, keep, level);
      assert Usable(w, h, f, most, keep);
      var before := DyeRun(w, h, front);
      SumWithin(before, f.added, level, most);
      DyeStepWithin(w, h, Sum(before, f.added), f.vu, f.vv, f.diffusion, f.dt, f.fd, level + most);
      Equilibrium(most, keep, level, f.fd);
      Wider(DyeRun(w, h, frames), (level + most) * f.fd, level);
    }
  }

  lemma Wider(s: seq<real>, hi: real, hi': real)
    requires Within(s, 0.0, hi) && hi <= hi'
    ensures Within(s, 0.0, hi')
  {
  }

  lemma Equilibrium(most: real, keep: real, level: real, fd: real)
    requires most >= 0.0 && level >= 0.0 && 0.0 <= fd <= keep && level * (1.0 - keep) == most * keep
    ensures (level + most) * fd <= level
  {
    assert level * (1.0 - keep) == level - level * keep;
    assert (level + most) * keep == level * keep + most * keep;
    assert (level + most) * fd <= (level + most) * keep by {
      TimesOrder(fd, keep, level + most);
    }
  }

  // ---- Pixels ----

  /** A level as a byte: 0 and below are black, 1 and above are full, between them the nearest. */
  function To8(f: real): (r: nat)
    ensures r <= 255
    ensures 0.0 <= f <= 1.0 ==> f * 255.0 - 0.5 <= r as real <= f * 255.0 + 0.5
    ensures (f <= 0.0 ==> r == 0) && (f >= 1.0 ==> r == 255)
  {
    if f <= 0.0 then 0 else if f >= 1.0 then 255 else Truncate(f * 255.0 + 0.5)
  }

  // ---- The arrays ----

  lemma SameCell(w: nat, h: nat, i: nat, x: nat, y: nat)
    requires i < Size(w, h) && x < w && y < h
    ensures i == At(w, x, y) <==> Col(w, i) == x && Row(w, i) == y
  {
    hide At, Size, Col, Row;
    Position(w, h, x, y);
    Coordinates(w, h, i);
  }

  lemma RowEnds(w: nat, h: nat, y: nat)
    requires w > 0 && y < h
    ensures At(w, 0, y) < Size(w, h) && At(w, w - 1, y) < Size(w, h)
    ensures forall i :: 0 <= i < Size(w, h) ==> (i == At(w, 0, y) <==> Col(w, i) == 0 && Row(w, i) == y)
    ensures forall i :: 0 <= i < Size(w, h) ==> (i == At(w, w - 1, y) <==> Col(w, i) == w - 1 && Row(w, i) == y)
  {
    hide At, Size, Col, Row;
    Position(w, h, 0, y);
    Position(w, h, w - 1, y);
    forall i | 0 <= i < Size(w, h)
      ensures (i == At(w, 0, y) <==> Col(w, i) == 0 && Row(w, i) == y) && (i == At(w, w - 1, y) <==> Col(w, i) == w - 1 && Row(w, i) == y)
    {
      SameCell(w, h, i, 0, y);
      SameCell(w, h, i, w - 1, y);
    }
  }

  lemma ColumnEnds(w: nat, h: nat, x: nat)
    requires h > 0 && x < w
    ensures At(w, x, 0) < Size(w, h) && At(w, x, h - 1) < Size(w, h)
    ensures forall i :: 0 <= i < Size(w, h) ==> (i == At(w, x, 0) <==> Col(w, i) == x && Row(w, i) == 0)
    ensures forall i :: 0 <= i < Size(w, h) ==> (i == At(w, x, h - 1) <==> Col(w, i) == x && Row(w, i) == h - 1)
  {
    hide At, Size, Col, Row;
    Position(w, h, x, 0);
    Position(w, h, x, h - 1);
    forall i | 0 <= i < Size(w, h)
      ensures (i == At(w, x, 0) <==> Col(w, i) == x && Row(w, i) == 0) && (i == At(w, x, h - 1) <==> Col(w, i) == x && Row(w, i) == h - 1)
    {
      SameCell(w, h, i, x, 0);
      SameCell(w, h, i, x, h - 1);
    }
  }

  lemma AllRows(w: nat, h: nat)
    requires w > 0
    ensures forall i :: 0 <= i < Size(w, h) ==> Row(w, i) < h && Col(w, i) < w
  {
    hide Size, Col, Row;
    forall i | 0 <= i < Size(w, h) ensures Row(w, i) < h && Col(w, i) < w {
      Coordinates(w, h, i);
    }
  }

  lemma Around(w: nat, h: nat, x: nat, y: nat)
    requires x < w && y < h
    ensures At(w, x, y) < Size(w, h) && (x > 0 ==> At(w, x - 1, y) < Size(w, h)) && (y > 0 ==> At(w, x, y - 1) < Size(w, h))
    ensures (x < w - 1 ==> At(w, x + 1, y) < Size(w, h)) && (y < h - 1 ==> At(w, x, y + 1) < Size(w, h))
  {
    hide At, Size;
    Position(w, h, x, y);
    if x > 0 { Position(w, h, x - 1, y); }
    if y > 0 { Position(w, h, x, y - 1); }
    if x < w - 1 { Position(w, h, x + 1, y); }
    if y < h - 1 { Position(w, h, x, y + 1); }
  }

  lemma Corners(w: nat, h: nat, x0: nat, x1: nat, y0: nat, y1: nat)
    requires x0 < w && x1 < w && y0 < h && y1 < h
    ensures At(w, x0, y0) < Size(w, h) && At(w, x1, y0) < Size(w, h) && At(w, x0, y1) < Size(w, h) && At(w, x1, y1) < Size(w, h)
  {
    hide At, Size;
    Position(w, h, x0, y0);
    Position(w, h, x1, y0);
    Position(w, h, x0, y1);
    Position(w, h, x1, y1);
  }

  /** The specification's value at (x, y), from the samples the loop takes. */
  lemma TracedIs(w: nat, h: nat, d0: seq<real>, vu: seq<real>, vv: seq<real>, dt: real, dt0: real, x: nat, y: nat,
                 sx: (nat, nat, real), sy: (nat, nat, real))
    requires x < w && y < h && Size(w, h) == |d0| == |vu| == |vv| && dt0 == dt * Shorter(w, h) && At(w, x, y) < Size(w, h)
    requires sx == Sample(Back(x, dt0, vu[At(w, x, y)]), w) && sy == Sample(Back(y, dt0, vv[At(w, x, y)]), h)
    requires At(w, sx.0, sy.0) < Size(w, h) && At(w, sx.1, sy.0) < Size(w, h)
    requires At(w, sx.0, sy.1) < Size(w, h) && At(w, sx.1, sy.1) < Size(w, h)
    ensures Advected(w, h, d0, vu, vv, dt)[At(w, x, y)] ==
            Blend(Blend(d0[At(w, sx.0, sy.0)], d0[At(w, sx.1, sy.0)], sx.2),
                  Blend(d0[At(w, sx.0, sy.1)], d0[At(w, sx.1, sy.1)], sx.2), sy.2)
  {
    hide At, Size, Col, Row, Sample, Back, Shorter, Blend;
    Position(w, h, x, y);
    assert Advected(w, h, d0, vu, vv, dt)[At(w, x, y)] == Traced(w, h, d0, vu, vv, dt, x, y);
  }

  class FlowFluid {
    const w: nat
    const h: nat
    const u: array<real>
    const v: array<real>
    const gr: array<real>
    const gg: array<real>
    const gb: array<real>
    const tr: array<real>
    const tg: array<real>
    const tb: array<real>

    /** Eight separate arrays of one size. */
    ghost predicate Valid() {
      && w > 0 && h > 0
      && u.Length == v.Length == gr.Length == gg.Length == gb.Length == tr.Length == tg.Length == tb.Length == Size(w, h)
      && |{u, v, gr, gg, gb, tr, tg, tb}| == 8
    }

    constructor (width: nat, height: nat)
      requires width > 0 && height > 0
      ensures Valid() && w == width && h == height
      ensures fresh({u, v, gr, gg, gb, tr, tg, tb}) && gr[..] == gg[..] == gb[..] == seq(Size(w, h), _ => 0.0)
    {
      w, h := width, height;
      var n := width * height;
      u := new real[n](_ => 0.0);
      v := new real[n](_ => 0.0);
      gr := new real[n](_ => 0.0);
      gg := new real[n](_ => 0.0);
      gb := new real[n](_ => 0.0);
      tr := new real[n](_ => 0.0);
      tg := new real[n](_ => 0.0);
      tb := new real[n](_ => 0.0);
    }

    /** Zero the border cells of a velocity component. */
    method SetBnd(b: nat, x: array<real>)
      requires w > 0 && h > 0 && x.Length == Size(w, h)
      modifies x
      ensures x[..] == Bounded(w, h, b, old(x[..]))
    {
      hide At, Size, Col, Row;
      AllRows(w, h);
      if b == 1 {
        for y := 0 to h
          invariant forall i :: 0 <= i < Size(w, h) ==>
                      x[i] == if (Col(w, i) == 0 || Col(w, i) == w - 1) && Row(w, i) < y then 0.0 else old(x[i])
        {
          RowEnds(w, h, y);
          x[At(w, 0, y)] := 0.0;
          x[At(w, w - 1, y)] := 0.0;
        }
      } else if b == 2 {
        for xc := 0 to w
          invariant forall i :: 0 <= i < Size(w, h) ==>
                      x[i] == if (Row(w, i) == 0 || Row(w, i) == h - 1) && Col(w, i) < xc then 0.0 else old(x[i])
        {
          ColumnEnds(w, h, xc);
          x[At(w, xc, 0)] := 0.0;
          x[At(w, xc, h - 1)] := 0.0;
        }
      }
    }

    /** The fixed number of in-place sweeps. */
    method LinSolve(b: nat, x: array<real>, x0: array<real>, a: real, c: real)
      requires w > 0 && h > 0 && x.Length == x0.Length == Size(w, h) && x != x0 && c != 0.0
      modifies x
      ensures x[..] == Solved(w, h, b, old(x[..]), x0[..], a, 1.0 / c, SWEEPS)
    {
      var invC := 1.0 / c;
      ghost var source := x0[..];
      for k := 0 to SWEEPS
        invariant x[..] == Solved(w, h, b, old(x[..]), source, a, invC, k)
        invariant x0[..] == source
      {
        SweepOnce(x, x0, a, invC);
        SetBnd(b, x);
      }
    }

    /** One sweep over the cells, row by row. */
    method SweepOnce(x: array<real>, x0: array<real>, a: real, invC: real)
      requires w > 0 && h > 0 && x.Length == x0.Length == Size(w, h) && x != x0
      modifies x
      ensures x[..] == Sweep(w, h, old(x[..]), x0[..], a, invC, Size(w, h))
    {
      hide Sweep, At, Size, Relaxed;
      ghost var start := x[..];
      SweepStart(w, h, start, x0[..], a, invC);
      IndexOrder(w, h, 0, 0);
      for y := 0 to h
        invariant At(w, 0, y) <= Size(w, h) && x[..] == Sweep(w, h, start, x0[..], a, invC, At(w, 0, y))
      {
        for xc := 0 to w
          invariant At(w, xc, y) <= Size(w, h) && x[..] == Sweep(w, h, start, x0[..], a, invC, At(w, xc, y))
        {
          Position(w, h, xc, y);
          SweepStep(w, h, start, x0[..], a, invC, At(w, xc, y));
          IndexOrder(w, h, xc, y);
          RelaxCell(x, x0, a, invC, xc, y);
        }
        IndexOrder(w, h, 0, y);
      }
    }

    method RelaxCell(x: array<real>, x0: array<real>, a: real, invC: real, xc: nat, y: nat)
      requires w > 0 && x.Length == x0.Length == Size(w, h) && x != x0 && xc < w && y < h && At(w, xc, y) < Size(w, h)
      modifies x
      ensures x[..] == old(x[..])[At(w, xc, y) := Relaxed(w, h, old(x[..]), x0[..], a, invC, At(w, xc, y))]
    {
      hide At, Size, Relax, Left, Right, Up, Down;
      Neighbours(w, h, xc, y);
      Around(w, h, xc, y);
      var xm := if xc > 0 then x[At(w, xc - 1, y)] else x[At(w, xc, y)];
      var xp := if xc < w - 1 then x[At(w, xc + 1, y)] else x[At(w, xc, y)];
      var ym := if y > 0 then x[At(w, xc, y - 1)] else x[At(w, xc, y)];
      var yp := if y < h - 1 then x[At(w, xc, y + 1)] else x[At(w, xc, y)];
      x[At(w, xc, y)] := Relax(x0[At(w, xc, y)], a, xm + xp + ym + yp, invC);
    }

    /** Diffuse x0 into x, starting from what x holds. */
    method Diffuse(b: nat, x: array<real>, x0: array<real>, diff: real, dt: real)
      requires w > 0 && h > 0 && x.Length == x0.Length == Size(w, h) && x != x0 && dt >= 0.0
      modifies x
      ensures x[..] == Diffused(w, h, b, old(x[..]), x0[..], diff, dt)
    {
      if diff <= 0.0 {
        Copy(x, x0);
        SetBnd(b, x);
        return;
      }
      var a := Strength(w, h, diff, dt);
      LinSolve(b, x, x0, a, 1.0 + 4.0 * a);
    }

    method Copy(to: array<real>, from: array<real>)
      requires to.Length == from.Length && to != from
      modifies to
      ensures to[..] == from[..]
    {
      for i := 0 to to.Length
        invariant to[..i] == from[..i]
      {
        to[i] := from[i];
      }
    }

    /** Carry d0 along the velocity into d. */
    method Advect(b: nat, d: array<real>, d0: array<real>, vu: array<real>, vv: array<real>, dt: real)
      requires w > 0 && h > 0 && d.Length == d0.Length == vu.Length == vv.Length == Size(w, h)
      requires d != d0 && d != vu && d != vv
      modifies d
      ensures d[..] == Bounded(w, h, b, Advected(w, h, d0[..], vu[..], vv[..], dt))
    {
      hide At, Size, Back, Shorter, Sample, Blend, Bounded, Traced;
      ghost var want := Advected(w, h, d0[..], vu[..], vv[..], dt);
      var dt0 := dt * Shorter(w, h);
      IndexOrder(w, h, 0, 0);
      for y := 0 to h
        invariant At(w, 0, y) <= Size(w, h) && d[..At(w, 0, y)] == want[..At(w, 0, y)]
      {
        for xc := 0 to w
          invariant At(w, xc, y) <= Size(w, h) && d[..At(w, xc, y)] == want[..At(w, xc, y)]
        {
          Position(w, h, xc, y);
          var sx := Sample(Back(xc, dt0, vu[At(w, xc, y)]), w);
          var sy := Sample(Back(y, dt0, vv[At(w, xc, y)]), h);
          Corners(w, h, sx.0, sx.1, sy.0, sy.1);
          var top := Blend(d0[At(w, sx.0, sy.0)], d0[At(w, sx.1, sy.0)], sx.2);
          var bot := Blend(d0[At(w, sx.0, sy.1)], d0[At(w, sx.1, sy.1)], sx.2);
          TracedIs(w, h, d0[..], vu[..], vv[..], dt, dt0, xc, y, sx, sy);
          d[At(w, xc, y)] := Blend(top, bot, sy.2);
          IndexOrder(w, h, xc, y);
        }
        IndexOrder(w, h, 0, y);
      }
      assert d[..] == want;
      SetBnd(b, d);
    }

    /** The dye half of a frame and the pixels it draws. */
    method RenderDye(diffusion: real, dt: real, fd: real, px: array<(nat, nat, nat)>)
      requires Valid() && dt >= 0.0 && px.Length == Size(w, h)
      modifies gr, gg, gb, tr, tg, tb, px
      ensures gr[..] == DyeStep(w, h, old(gr[..]), u[..], v[..], diffusion, dt, fd)
      ensures gg[..] == DyeStep(w, h, old(gg[..]), u[..], v[..], diffusion, dt, fd)
      ensures gb[..] == DyeStep(w, h, old(gb[..]), u[..], v[..], diffusion, dt, fd)
      ensures forall i :: 0 <= i < Size(w, h) ==> px[i] == (To8(gr[i]), To8(gg[i]), To8(gb[i]))
    {
      hide Diffused, Advected, Bounded, Scaled, Size, To8;
      if diffusion > 0.0 {
        Copy(tr, gr);
        Copy(tg, gg);
        Copy(tb, gb);
        Diffuse(0, gr, tr, diffusion, dt);
        Diffuse(0, gg, tg, diffusion, dt);
        Diffuse(0, gb, tb, diffusion, dt);
      }
      Copy(tr, gr);
      Copy(tg, gg);
      Copy(tb, gb);
      Advect(0, gr, tr, u, v, dt);
      Advect(0, gg, tg, u, v, dt);
      Advect(0, gb, tb, u, v, dt);
      assert gr[..] == Moved(old(gr[..]), diffusion, dt) && gg[..] == Moved(old(gg[..]), diffusion, dt)
          && gb[..] == Moved(old(gb[..]), diffusion, dt);
      Dissipate(fd);
      Draw(px);
    }

    /** A channel diffused and carried along. */
    ghost function Moved(s: seq<real>, diffusion: real, dt: real): (r: seq<real>)
      requires w > 0 && Size(w, h) == |s| == u.Length == v.Length && dt >= 0.0
      reads u, v
      ensures |r| == |s|
    {
      var spread := if diffusion > 0.0 then Diffused(w, h, 0, s, s, diffusion, dt) else s;
      Bounded(w, h, 0, Advected(w, h, spread, u[..], v[..], dt))
    }

    method Draw(px: array<(nat, nat, nat)>)
      requires Valid() && px.Length == Size(w, h)
      modifies px
      ensures forall i :: 0 <= i < px.Length ==> px[i] == (To8(gr[i]), To8(gg[i]), To8(gb[i]))
    {
      hide Size, To8;
      for i := 0 to Size(w, h)
        invariant forall j :: 0 <= j < i ==> px[j] == (To8(gr[j]), To8(gg[j]), To8(gb[j]))
      {
        px[i] := (To8(gr[i]), To8(gg[i]), To8(gb[i]));
      }
    }

    method Dissipate(fd: real)
      requires Valid()
      modifies gr, gg, gb
      ensures gr[..] == Scaled(old(gr[..]), fd) && gg[..] == Scaled(old(gg[..]), fd) && gb[..] == Scaled(old(gb[..]), fd)
    {
      hide Size, Scaled;
      ghost var r, g, b := Scaled(gr[..], fd), Scaled(gg[..], fd), Scaled(gb[..], fd);
      ghost var r0, g0, b0 := gr[..], gg[..], gb[..];
      for i := 0 to gr.Length
        invariant forall j :: 0 <= j < |r| ==> gr[j] == if j < i then r[j] else r0[j]
        invariant forall j :: 0 <= j < |g| ==> gg[j] == if j < i then g[j] else g0[j]
        invariant forall j :: 0 <= j < |b| ==> gb[j] == if j < i then b[j] else b0[j]
      {
        ScaledAt(r0, fd, i);
        ScaledAt(g0, fd, i);
        ScaledAt(b0, fd, i);
        gr[i] := gr[i] * fd;
        gg[i] := gg[i] * fd;
        gb[i] := gb[i] * fd;
      }
    }
  }

  lemma ScaledAt(s: seq<real>, f: real, i: nat)
    requires i < |s|
    ensures Scaled(s, f)[i] == s[i] * f
  {
  }
}
