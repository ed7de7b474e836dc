/** The rectangular panel: pixel count and the serpentine wiring map.  */
module GridLayouts {
  import opened Arithmetic

  /** The index of (x, y, z) in row-major order. */
  function Index(w: nat, h: nat, x: nat, y: nat, z: nat): nat {
    z * (w * h) + y * w + x
  }

  function PhysicalCount(w: nat, h: nat, d: nat): nat {
    w * h * d
  }

  function Plane(w: nat, h: nat, i: nat): nat
    requires w > 0 && h > 0
  {
    Positive(w, h);
    i / (w * h)
  }

  function Row(w: nat, h: nat, i: nat): nat
    requires w > 0 && h > 0
  {
    Positive(w, h);
    (i % (w * h)) / w
  }

  function Column(w: nat, h: nat, i: nat): nat
    requires w > 0 && h > 0
  {
    Positive(w, h);
    (i % (w * h)) % w
  }

  lemma Positive(w: nat, h: nat)
    requires w > 0 && h > 0
    ensures w * h > 0
  {
  }

  /** Logical to physical index: with serpentine wiring odd rows run right to left. */
  function Map(w: nat, h: nat, serpentine: bool, i: nat): nat
    requires w > 0 && h > 0
  {
    if !serpentine then i
    else
      var x := Column(w, h, i);
      Split(w, h, i);
      var px := if Row(w, h, i) % 2 == 1 then w - 1 - x else x;
      Index(w, h, px, Row(w, h, i), Plane(w, h, i))
  }

  /** Every index splits into plane, row and column, and in only one way. */
  lemma Split(w: nat, h: nat, i: nat)
    requires w > 0 && h > 0
    ensures Column(w, h, i) < w && Row(w, h, i) < h
    ensures i == Index(w, h, Column(w, h, i), Row(w, h, i), Plane(w, h, i))
  {
    Positive(w, h);
    var rem := i % (w * h);
    assert i == (w * h) * (i / (w * h)) + rem;
    assert rem == w * (rem / w) + rem % w;
    if rem / w >= h {
      ProductOrder(h, rem / w, w);
    }
  }

  lemma Joined(w: nat, h: nat, x: nat, y: nat, z: nat)
    requires x < w && y < h
    ensures Column(w, h, Index(w, h, x, y, z)) == x && Row(w, h, Index(w, h, x, y, z)) == y && Plane(w, h, Index(w, h, x, y, z)) == z
  {
    var i := Index(w, h, x, y, z);
    ProductOrder(y + 1, h, w);
    assert (y + 1) * w == y * w + w;
    Quotient(i, w * h, z, y * w + x);
    Quotient(y * w + x, w, y, x);
  }

  /** The map undoes itself and stays in the pixel's plane and row. */
  lemma MapIsInvolution(w: nat, h: nat, serpentine: bool, i: nat)
    requires w > 0 && h > 0
    ensures Map(w, h, serpentine, Map(w, h, serpentine, i)) == i
    ensures Plane(w, h, Map(w, h, serpentine, i)) == Plane(w, h, i) && Row(w, h, Map(w, h, serpentine, i)) == Row(w, h, i)
  {
    hide Index, Column, Row, Plane;
    Split(w, h, i);
    if serpentine {
      var x, y, z := Column(w, h, i), Row(w, h, i), Plane(w, h, i);
      Joined(w, h, if y % 2 == 1 then w - 1 - x else x, y, z);
    }
  }

  /** Where the pixel of column x, row y and plane z sits: without serpentine wiring in its place, else
      even rows run left to right and odd rows right to left. The first pixel of a plane stays put. */
  lemma RowsTurn(w: nat, h: nat, serpentine: bool, x: nat, y: nat, z: nat)
    requires x < w && y < h
    ensures var start := z * (w * h) + y * w;
            Map(w, h, serpentine, start + x) == if serpentine && y % 2 == 1 then start + (w - 1 - x) else start + x
    ensures Map(w, h, serpentine, z * (w * h)) == z * (w * h)
  {
    hide Column, Row, Plane;
    Joined(w, h, x, y, z);
    Joined(w, h, 0, 0, z);
    assert Index(w, h, 0, 0, z) == z * (w * h);
  }

  /** Below the pixel count means in one of the d planes. */
  lemma InPanel(w: nat, h: nat, d: nat, i: nat)
    requires w > 0 && h > 0
    ensures i < PhysicalCount(w, h, d) <==> Plane(w, h, i) < d
  {
    Positive(w, h);
    var p, z := w * h, i / (w * h);
    assert i == p * z + i % p;
    if z < d {
      ProductOrder(z + 1, d, p);
      assert p * (z + 1) == p * z + p;
    } else {
      ProductOrder(d, z, p);
    }
  }

  /** On the panel's pixels the map is a permutation: it stays inside, and every physical pixel is
      hit by exactly one logical one. */
  lemma MapIsPermutation(w: nat, h: nat, d: nat, serpentine: bool, p: nat)
    requires w > 0 && h > 0 && p < PhysicalCount(w, h, d)
    ensures Map(w, h, serpentine, p) < PhysicalCount(w, h, d)
    ensures exists i :: 0 <= i < PhysicalCount(w, h, d) && Map(w, h, serpentine, i) == p
    ensures forall i, j :: 0 <= i < PhysicalCount(w, h, d) && 0 <= j < PhysicalCount(w, h, d) ==>
              (Map(w, h, serpentine, i) == p == Map(w, h, serpentine, j) ==> i == j)
  {
    hide Map, PhysicalCount;
    MapIsInvolution(w, h, serpentine, p);
    InPanel(w, h, d, p);
    InPanel(w, h, d, Map(w, h, serpentine, p));
    forall i: nat | Map(w, h, serpentine, i) == p ensures i == Map(w, h, serpentine, p) {
      MapIsInvolution(w, h, serpentine, i);
    }
  }

  /** A sum of three terms in 32-bit arithmetic. */
  function Sum32(a: nat, b: nat, c: nat): nat {
    ((a % WORD + b % WORD) % WORD + c) % WORD
  }

  /** The map as computed in 32 bits, on 16-bit sizes and a 32-bit index. */
  function Map32(w: nat, h: nat, serpentine: bool, i: nat): nat
    requires 0 < w < 0x1_0000 && 0 < h < 0x1_0000 && i < WORD
  {
    if !serpentine then i
    else
      Split(w, h, i);
      var x := Column(w, h, i);
      var px := if Row(w, h, i) % 2 == 1 then w - 1 - x else x;
      Sum32(Plane(w, h, i) * (w * h), Row(w, h, i) * w, px)
  }

  /** It is the map exactly when the map's result fits 32 bits, in particular on every pixel of a
      panel with at most 2^32 of them. */
  lemma Map32IsMap(w: nat, h: nat, d: nat, serpentine: bool, i: nat)
    requires 0 < w < 0x1_0000 && 0 < h < 0x1_0000 && i < WORD
    ensures Map32(w, h, serpentine, i) == Map(w, h, serpentine, i) <==> Map(w, h, serpentine, i) < WORD
    ensures i < PhysicalCount(w, h, d) <= WORD ==> Map32(w, h, serpentine, i) == Map(w, h, serpentine, i)
  {
    hide PhysicalCount, Column, Row, Plane, Sum32;
    Split(w, h, i);
    var x := Column(w, h, i);
    var px := if Row(w, h, i) % 2 == 1 then w - 1 - x else x;
    Sum32Is(Plane(w, h, i) * (w * h), Row(w, h, i) * w, px);
    if i < PhysicalCount(w, h, d) {
      MapIsPermutation(w, h, d, serpentine, i);
    }
  }

  lemma Sum32Is(a: nat, b: nat, c: nat)
    ensures Sum32(a, b, c) == a + b + c <==> a + b + c < WORD
  {
    if a + b + c >= WORD {
      assert Sum32(a, b, c) < WORD;
    }
  }

  function Distance(a: nat, b: nat): nat {
    if a < b then b - a else a - b
  }

  /** What serpentine wiring is for: two pixels next to each other on the wire, in one plane, are
      next to each other on the panel. */
  lemma WireFollowsThePanel(w: nat, h: nat, p: nat)
    requires w > 0 && h > 0 && Plane(w, h, p) == Plane(w, h, p + 1)
    ensures var a, b := Map(w, h, true, p), Map(w, h, true, p + 1);
            Distance(Column(w, h, a), Column(w, h, b)) + Distance(Row(w, h, a), Row(w, h, b)) == 1
  {
    hide Index, Column, Row, Plane;
    Split(w, h, p);
    Split(w, h, p + 1);
    var x, y, z := Column(w, h, p), Row(w, h, p), Plane(w, h, p);
    Successor(w, h, x, y, z);
    NextOnWire(w, h, p);
    var x', y' := Column(w, h, p + 1), Row(w, h, p + 1);
    Joined(w, h, if y % 2 == 1 then w - 1 - x else x, y, z);
    Joined(w, h, if y' % 2 == 1 then w - 1 - x' else x', y', z);
  }

  lemma Successor(w: nat, h: nat, x: nat, y: nat, z: nat)
    ensures Index(w, h, x, y, z) + 1 == Index(w, h, x + 1, y, z)
    ensures x + 1 == w ==> Index(w, h, x, y, z) + 1 == Index(w, h, 0, y + 1, z)
    ensures x + 1 == w && y + 1 == h ==> Index(w, h, x, y, z) + 1 == Index(w, h, 0, 0, z + 1)
  {
    assert (y + 1) * w == y * w + w && (z + 1) * (w * h) == z * (w * h) + w * h;
  }

  /** The coordinates after one step along a row, or to the start of the next. */
  lemma NextOnWire(w: nat, h: nat, p: nat)
    requires w > 0 && h > 0 && Plane(w, h, p) == Plane(w, h, p + 1)
    ensures if Column(w, h, p) + 1 < w then Column(w, h, p + 1) == Column(w, h, p) + 1 && Row(w, h, p + 1) == Row(w, h, p)
            else Column(w, h, p + 1) == 0 && Row(w, h, p + 1) == Row(w, h, p) + 1
  {
    hide Index, Column, Row, Plane;
    Split(w, h, p);
    var x, y, z := Column(w, h, p), Row(w, h, p), Plane(w, h, p);
    Successor(w, h, x, y, z);
    if x + 1 < w {
      Joined(w, h, x + 1, y, z);
    } else if y + 1 < h {
      Joined(w, h, 0, y + 1, z);
    } else {
      Joined(w, h, 0, 0, z + 1);
    }
  }
}
