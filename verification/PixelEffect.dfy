/** The buffers of a pixel effect: its own pixel array and the shared slot it publishes. Memory is
    requested in bytes, counted in a size_t word of the platform.  */
module PixelEffects {
  import opened Arithmetic
  import opened DataBuffers

  /** A pixel is three bytes. */
  const PIXEL_BYTES: nat := 3

  datatype Geometry = Geometry(w: nat, h: nat, d: nat) {
    predicate Fits16() { w < 0x1_0000 && h < 0x1_0000 && d < 0x1_0000 }

    function Pixels(): nat { w * h * d }

    /** The pixel count as the code computes it, in 32 bits. */
    function Count(): nat { Pixels() % WORD }

    /** The byte count of a request for that many pixels. */
    function Bytes(sizeWord: nat): nat
      requires sizeWord > 0
    {
      Request(Count(), PIXEL_BYTES, sizeWord)
    }

    /** Neither the pixel count nor the byte count wraps. */
    predicate Holds(sizeWord: nat) {
      Pixels() < WORD && PIXEL_BYTES * Pixels() < sizeWord
    }
  }

  /** A block of memory, in bytes. */
  datatype Size = Absent | Of(bytes: nat)

  /** Geometry, pixel array, whether the shared buffer object exists, and its slot; sizeWord is the
      number of values of a size_t. */
  datatype View = View(sizeWord: nat, geo: Geometry, pixels: Size, buffered: bool, slot: Size)

  /** What the outside does to an effect. `granted` answers the two allocation requests, where they
      are not empty. */
  datatype Event =
    | Allocate(target: Geometry, pixelsGranted: bool, slotGranted: bool)
    | Poll(target: Geometry, pixelsGranted: bool, slotGranted: bool)
    | Frame
    | Teardown

  function Allocated(v: View, g: Geometry, pixelsGranted: bool, slotGranted: bool): View
    requires v.sizeWord > 0
  {
    var bytes := g.Bytes(v.sizeWord);
    if g == v.geo && v.pixels.Of? && v.buffered then v
    else if !pixelsGranted || bytes == 0 then v.(geo := g, pixels := Absent)
    else View(v.sizeWord, g, Of(bytes), true, if slotGranted then Of(bytes) else Absent)
  }

  function Step(v: View, e: Event): (u: View)
    requires v.sizeWord > 0
    ensures u.sizeWord == v.sizeWord
  {
    match e
    case Allocate(g, p, s) => Allocated(v, g, p, s)
    case Poll(g, p, s) => if g == v.geo then v else Allocated(v, g, p, s)
    case Frame => v
    case Teardown => v.(pixels := Absent, buffered := false, slot := Absent)
  }

  function Run(v: View, es: seq<Event>): (u: View)
    requires v.sizeWord > 0
    ensures u.sizeWord == v.sizeWord
    decreases |es|
  {
    if es == [] then v else Run(Step(v, es[0]), es[1..])
  }

  /** The frame copy of loop20ms runs. */
  predicate Copies(v: View) {
    v.pixels.Of? && v.buffered && v.slot.Of?
  }

  ghost predicate SizesOk(v: View)
    requires v.sizeWord > 0
  {
    && (v.pixels.Of? ==> v.pixels.bytes == v.geo.Bytes(v.sizeWord) > 0 && v.buffered)
    && (v.pixels.Of? && v.slot.Of? ==> v.slot.bytes == v.geo.Bytes(v.sizeWord))
    && (!v.buffered ==> v.slot.Absent?)
  }

  function Boot(sizeWord: nat): (v: View)
    requires sizeWord > 0
    ensures v.sizeWord > 0 && SizesOk(v)
  {
    View(sizeWord, Geometry(16, 16, 1), Absent, false, Absent)
  }

  lemma EmptyRequest(elemSize: nat, sizeWord: nat)
    requires sizeWord > 0
    ensures Request(0, elemSize, sizeWord) == 0
  {
  }

  lemma {:induction false} SizesKept(v: View, es: seq<Event>)
    requires v.sizeWord > 0 && SizesOk(v)
    ensures SizesOk(Run(v, es))
    decreases |es|
  {
    hide Request;
    if es != [] {
      SizesKept(Step(v, es[0]), es[1..]);
    }
  }

  /** The requested bytes are those of all pixels exactly when no count wraps. */
  lemma BytesOfAllPixels(g: Geometry, sizeWord: nat)
    requires sizeWord > 0
    ensures g.Bytes(sizeWord) == PIXEL_BYTES * g.Pixels() <==> g.Holds(sizeWord)
    ensures g.Bytes(sizeWord) / PIXEL_BYTES == g.Pixels() <==> g.Holds(sizeWord)
  {
    var n, all := g.Count(), g.Pixels();
    RequestHoldsAll(n, PIXEL_BYTES, sizeWord);
    assert n <= all;
    assert g.Bytes(sizeWord) <= n * PIXEL_BYTES by {
      assert n * PIXEL_BYTES == sizeWord * (n * PIXEL_BYTES / sizeWord) + g.Bytes(sizeWord);
      TimesPositive(sizeWord, n * PIXEL_BYTES / sizeWord);
    }
  }

  lemma TimesPositive(a: nat, b: nat)
    ensures a * b >= 0
  {
  }

  /** Whatever happens to an effect, whenever its frame copy runs both buffers have the same number
      of bytes, the ones copied; and they hold exactly width * height * depth pixels if and only if
      that count fits 32 bits and its bytes fit a size_t. */
  lemma CopySizes(v: View, es: seq<Event>)
    requires v.sizeWord > 0 && SizesOk(v)
    ensures SizesOk(Run(v, es))
    ensures var u := Run(v, es);
            var all := u.geo.w * u.geo.h * u.geo.d;
            Copies(u) ==>
              && u.pixels.bytes == u.slot.bytes == u.geo.Bytes(v.sizeWord)
              && (u.pixels.bytes == u.slot.bytes == 3 * all <==> all < WORD && 3 * all < v.sizeWord)
  {
    SizesKept(v, es);
    BytesOfAllPixels(Run(v, es).geo, v.sizeWord);
  }

  const WORD64: nat := 0x1_0000_0000_0000_0000

  /** On the two platforms: 64-bit sizes ask only that the pixel count fits 32 bits, 32-bit sizes
      that the byte count does. */
  lemma PlatformLimits(g: Geometry)
    ensures g.Holds(WORD64) <==> g.Pixels() < WORD
    ensures g.Holds(WORD) <==> PIXEL_BYTES * g.Pixels() < WORD
  {
  }

  /** With 32-bit sizes a geometry of 1431676406 pixels, a count that fits 32 bits, asks for 61922
      bytes. If the heap grants them the frame copy runs, and both buffers are that small. */
  lemma OversizedFromBoot()
    ensures var g := Geometry(37837, 37838, 1);
            var u := Run(Boot(WORD), [Allocate(g, true, true)]);
            g.Fits16() && g.Pixels() == 1431676406 < WORD && Copies(u) && u.geo == g && u.pixels.bytes == u.slot.bytes == 61922
  {
    var g := Geometry(37837, 37838, 1);
    assert g.Pixels() == 1431676406;
    assert g.Bytes(WORD) == 61922;
    assert [Allocate(g, true, true)][1..] == [];
  }

  /** A slot that could not be allocated is not asked for again while the geometry stays the
      same, however many allocations, polls and frames follow: such an effect never copies. */
  lemma {:induction false} DeniedSlotStaysDenied(v: View, es: seq<Event>)
    requires v.sizeWord > 0 && v.pixels.Of? && v.buffered && v.slot.Absent?
    requires forall e :: e in es ==> e.Frame? || ((e.Allocate? || e.Poll?) && e.target == v.geo)
    ensures Run(v, es) == v && !Copies(v)
    decreases |es|
  {
    if es != [] {
      assert es[0] in es;
      DeniedSlotStaysDenied(v, es[1..]);
    }
  }

  /** The geometry asked for last. */
  function LastTarget(first: Geometry, es: seq<Event>): Geometry {
    if es == [] then first
    else match es[|es| - 1]
      case Allocate(g, _, _) => g
      case Poll(g, _, _) => g
      case _ => LastTarget(first, es[..|es| - 1])
  }

  lemma {:induction false} RunLast(v: View, es: seq<Event>)
    requires v.sizeWord > 0 && es != []
    ensures Run(v, es) == Step(Run(v, es[..|es| - 1]), es[|es| - 1])
    decreases |es|
  {
    if |es| > 1 {
      RunLast(Step(v, es[0]), es[1..]);
      assert es[1..][..|es| - 2] == es[..|es| - 1][1..];
    }
  }

  /** Granted or not, the effect takes on the geometry asked for last. */
  lemma {:induction false} GeometryFollows(v: View, es: seq<Event>)
    requires v.sizeWord > 0
    ensures Run(v, es).geo == LastTarget(v.geo, es)
  {
    if es != [] {
      RunLast(v, es);
      GeometryFollows(v, es[..|es| - 1]);
    }
  }

  /** Without a pixel array, be it denied or torn down, polls at the same geometry ask for nothing. */
  lemma {:induction false} NoPixelsUntilChange(v: View, es: seq<Event>)
    requires v.sizeWord > 0 && v.pixels.Absent?
    requires forall e :: e in es ==> e.Frame? || (e.Poll? && e.target == v.geo)
    ensures Run(v, es) == v && !Copies(v)
    decreases |es|
  {
    if es != [] {
      assert es[0] in es;
      NoPixelsUntilChange(v, es[1..]);
    }
  }

  /** An empty request is never granted. */
  lemma {:induction false} NothingToAllocate(v: View, es: seq<Event>)
    requires v.sizeWord > 0 && v.pixels.Absent? && v.geo.Bytes(v.sizeWord) == 0
    requires forall e :: e in es ==> e.Frame? || ((e.Allocate? || e.Poll?) && e.target == v.geo)
    ensures !Copies(Run(v, es))
    decreases |es|
  {
    if es != [] {
      assert es[0] in es;
      NothingToAllocate(Step(v, es[0]), es[1..]);
    }
  }

  /** It happens at boot: the pixels are granted and the slot is not. From then on no request at that
      geometry, granted or not, makes the effect copy. */
  lemma DeniedSlotFromBoot(sizeWord: nat, g: Geometry, es: seq<Event>)
    requires sizeWord > 0
    requires forall e :: e in es ==> e.Frame? || ((e.Allocate? || e.Poll?) && e.target == g)
    ensures !Copies(Run(Boot(sizeWord), [Allocate(g, true, false)] + es))
  {
    var v := Step(Boot(sizeWord), Allocate(g, true, false));
    assert ([Allocate(g, true, false)] + es)[1..] == es;
    if g.Bytes(sizeWord) == 0 {
      NothingToAllocate(v, es);
    } else {
      DeniedSlotStaysDenied(v, es);
    }
  }

  /** After an allocation request the effect can copy if and only if the pixels and the slot
      were granted, or nothing had to be allocated and it could copy before. */
  lemma CopiesAfterAllocate(v: View, g: Geometry, p: bool, s: bool)
    requires v.sizeWord > 0 && SizesOk(v)
    ensures Copies(Step(v, Allocate(g, p, s))) <==>
            if g == v.geo && v.pixels.Of? then v.slot.Of? else p && s && g.Bytes(v.sizeWord) > 0
  {
  }

  class PixelEffect<T(0)> {
    var w: nat
    var h: nat
    var d: nat
    /** The whole pixels that the array's memory holds. */
    var pixels: array?<T>
    var buf: DataBuffer?<T>
    const sizeWord: nat
    /** The bytes behind `pixels`. */
    ghost var pixelBytes: nat

    ghost function Geo(): Geometry
      reads this
    {
      Geometry(w, h, d)
    }

    ghost function Now(): View
      reads this, buf
      requires buf != null ==> buf.sizeWord > 0
    {
      View(sizeWord, Geo(), if pixels == null then Absent else Of(pixelBytes), buf != null,
           if buf == null || buf.slot == null then Absent else Of(buf.SlotBytes()))
    }

    ghost predicate Valid()
      reads this, buf
    {
      && sizeWord > 0
      && (buf != null ==> buf.Valid() && !buf.dead && buf.elemSize == PIXEL_BYTES && buf.sizeWord == sizeWord)
      && SizesOk(Now())
      && (pixels != null ==> pixels.Length == pixelBytes / PIXEL_BYTES)
      && (buf != null && pixels != null ==> pixels != buf.slot)
    }

    constructor (sizeWord: nat)
      requires sizeWord > 0
      ensures Valid() && Now() == Boot(sizeWord)
    {
      this.sizeWord := sizeWord;
      w, h, d, pixels, buf, pixelBytes := 16, 16, 1, null, null, 0;
    }

    /** (Re)allocate for the given geometry: the layout's, or the 16x16x1 default. */
    method Allocate(target: Geometry, pixelsGranted: bool, slotGranted: bool, zero: T)
      requires Valid() && target.Fits16()
      modifies this, buf
      ensures Valid() && Now() == Step(old(Now()), Event.Allocate(target, pixelsGranted, slotGranted))
      ensures pixels != old(pixels) && pixels != null ==> fresh(pixels) && forall i :: 0 <= i < pixels.Length ==> pixels[i] == zero
      ensures buf == old(buf) || (old(buf) == null && fresh(buf))
    {
      hide Request;
      var pw, ph, pd := w, h, d;
      w, h, d := target.w, target.h, target.d;
      if w == pw && h == ph && d == pd && pixels != null && buf != null { return; }
      var n := target.Count();
      var bytes := Request(n, PIXEL_BYTES, sizeWord);
      pixels := null;
      EmptyRequest(PIXEL_BYTES, sizeWord);
      if bytes == 0 || !pixelsGranted { return; }
      pixels := new T[bytes / PIXEL_BYTES](i => zero);
      pixelBytes := bytes;
      if buf == null { buf := new DataBuffer<T>(PIXEL_BYTES, sizeWord); }
      var ok := buf.Allocate(n, slotGranted);
    }

    /** The once-a-second poll of the layout. */
    method Loop1s(layout: Geometry, pixelsGranted: bool, slotGranted: bool, zero: T)
      requires Valid() && layout.Fits16()
      modifies this, buf
      ensures Valid() && Now() == Step(old(Now()), Poll(layout, pixelsGranted, slotGranted))
    {
      if layout.w != w || layout.h != h || layout.d != d {
        Allocate(layout, pixelsGranted, slotGranted, zero);
      }
    }

    /** Render a frame of all pixels into the array, copy it into the slot, publish. A frame is
        rendered only into an array, and then must fit it. */
    method Loop20ms(frame: seq<T>)
      requires Valid() && (pixels != null ==> Geo().Holds(sizeWord) && |frame| == Geo().Pixels())
      modifies pixels, if buf == null then null else buf.slot, buf
      ensures Valid() && Now() == old(Now()) && buf == old(buf) && pixels == old(pixels)
      ensures Copies(Now()) ==> buf.slot == old(buf.slot) && buf.slot[..] == pixels[..] == frame
      ensures buf != null ==> buf.publishes == old(buf.publishes) + if Copies(Now()) then 1 else 0
    {
      if pixels == null { return; }
      BytesOfAllPixels(Geo(), sizeWord);
      Fill(pixels, frame);
      CopyOut();
    }

    /** The copy and the publish. The copied bytes are exactly the pixel array and exactly the slot,
        at every geometry. */
    method CopyOut()
      requires Valid() && pixels != null
      modifies if buf == null then null else buf.slot, buf
      ensures Valid() && Now() == old(Now())
      ensures Copies(Now()) ==> buf.slot == old(buf.slot) && buf.slot[..] == pixels[..]
      ensures buf != null ==> buf.publishes == old(buf.publishes) + if Copies(Now()) then 1 else 0
    {
      if buf != null && buf.slot != null {
        var n := Geometry(w, h, d).Count();
        var bytes := Request(n, PIXEL_BYTES, sizeWord);
        Copy(buf.slot, pixels, bytes / PIXEL_BYTES);
        buf.Publish();
      }
    }

    method Fill(a: array<T>, frame: seq<T>)
      requires a.Length == |frame|
      modifies a
      ensures a[..] == frame
    {
      for i := 0 to a.Length
        invariant a[..i] == frame[..i]
      {
        a[i] := frame[i];
      }
    }

    /** The first n elements of src. */
    method Copy(dst: array<T>, src: array<T>, n: nat)
      requires n <= dst.Length && n <= src.Length && dst != src
      modifies dst
      ensures dst[..n] == src[..n] && dst[n..] == old(dst[n..])
    {
      for i := 0 to n
        invariant dst[..i] == src[..i] && dst[n..] == old(dst[n..])
      {
        dst[i] := src[i];
      }
    }

    method Teardown()
      requires Valid()
      modifies this, buf
      ensures Valid() && Now() == Step(old(Now()), Event.Teardown)
      ensures old(buf) != null ==> old(buf).dead
    {
      if buf != null {
        buf.Invalidate();
        buf := null;
      }
      pixels := null;
    }
  }
}
