/** The eight orientations of an encoded image (SkEncodedOrigin.h; the Orientation tag of Exif 2.2,
    section 4.6.4). */
module EncodedOrigin {
  import opened Basics
  import opened MatrixCache
  import opened Matrix44

  /** 1 to 8, as in the tag; any other value aborts in the source. */
  type Origin = o: int | 1 <= o <= 8 witness 1

  /** `SkEncodedOriginToMatrix`. */
  function ToMatrix(origin: Origin, width: int, height: int): Mat {
    var w, h := width as real, height as real;
    match origin
    case 1 => IDENTITY
    case 2 => [-1.0, 0.0, w, 0.0, 1.0, 0.0, 0.0, 0.0, 1.0]
    case 3 => [-1.0, 0.0, w, 0.0, -1.0, h, 0.0, 0.0, 1.0]
    case 4 => [1.0, 0.0, 0.0, 0.0, -1.0, h, 0.0, 0.0, 1.0]
    case 5 => [0.0, 1.0, 0.0, 1.0, 0.0, 0.0, 0.0, 0.0, 1.0]
    case 6 => [0.0, -1.0, w, 1.0, 0.0, 0.0, 0.0, 0.0, 1.0]
    case 7 => [0.0, -1.0, w, -1.0, 0.0, h, 0.0, 0.0, 1.0]
    case _ => [0.0, 1.0, 0.0, -1.0, 0.0, h, 0.0, 0.0, 1.0]
  }

  /** `SkEncodedOriginSwapsWidthHeight`. */
  predicate SwapsWidthHeight(origin: Origin) { origin >= 5 }

  // ----- The meaning of the names

  datatype Side = Top | Bottom | Left | Right

  /** Where the 0th row of the source is shown; the first part of the origin's name. */
  function Row0(origin: Origin): Side {
    match origin
    case 1 => Top case 2 => Top case 3 => Bottom case 4 => Bottom
    case 5 => Left case 6 => Right case 7 => Right case _ => Left
  }

  /** Where the 0th column of the source is shown; the second part of the name. */
  function Column0(origin: Origin): Side {
    match origin
    case 1 => Left case 2 => Right case 3 => Right case 4 => Left
    case 5 => Top case 6 => Top case 7 => Bottom case _ => Bottom
  }

  predicate On(p: Point, side: Side, w: int, h: int) {
    match side
    case Top => p.y == 0.0
    case Bottom => p.y == h as real
    case Left => p.x == 0.0
    case Right => p.x == w as real
  }

  /** The matrix shows the 0th row and the 0th column of the source on the named sides, and nothing else
      there. */
  lemma ShowsNamedSides(o: Origin, w: int, h: int, p: Point)
    ensures p.y == 0.0 <==> On(MapAffine(ToMatrix(o, w, h), p), Row0(o), w, h)
    ensures p.x == 0.0 <==> On(MapAffine(ToMatrix(o, w, h), p), Column0(o), w, h)
  {
  }

  /** The width and height of the source whose upright image is w by h.  The matrices need w and h to be the
      upright size, as the destination rectangle of the header says. */
  function SourceSize(o: Origin, w: int, h: int): (int, int) {
    if SwapsWidthHeight(o) then (h, w) else (w, h)
  }

  function Whole(size: (int, int)): Rect { Rect(0.0, 0.0, size.0 as real, size.1 as real) }

  /** The orientation that undoes another. */
  function Inverse(o: Origin): Origin {
    if o == 6 then 8 else if o == 8 then 6 else o
  }

  /** Every orientation is a one-to-one map of the source rectangle onto [0, w] x [0, h], undone on both
      sides by one of the eight. */
  lemma OrientationIsBijection(o: Origin, w: int, h: int, p: Point)
    ensures var m, back := ToMatrix(o, w, h), ToMatrix(Inverse(o), SourceSize(o, w, h).0, SourceSize(o, w, h).1);
            && MapAffine(back, MapAffine(m, p)) == p
            && MapAffine(m, MapAffine(back, p)) == p
            && (Inside(p, Whole(SourceSize(o, w, h))) <==> Inside(MapAffine(m, p), Whole((w, h))))
    ensures SourceSize(Inverse(o), SourceSize(o, w, h).0, SourceSize(o, w, h).1) == (w, h)
    ensures RectForm(ToMatrix(o, w, h))
  {
    var (sw, sh) := SourceSize(o, w, h);
    InverseSize(o, w, h);
    UndoneByInverse(o, w, h, p);
    UndoneByInverse(Inverse(o), sw, sh, p);
    InsideExactly(o, w, h, p);
    hide ToMatrix, MapAffine, Inside, SourceSize, Inverse, Whole;
    assert RectForm(ToMatrix(o, w, h)) by { AxesOnly(o, w, h); }
  }

  lemma InverseSize(o: Origin, w: int, h: int)
    ensures SourceSize(Inverse(o), SourceSize(o, w, h).0, SourceSize(o, w, h).1) == (w, h)
    ensures Inverse(Inverse(o)) == o
  {
  }

  lemma UndoneByInverse(o: Origin, w: int, h: int, p: Point)
    ensures var (sw, sh) := SourceSize(o, w, h);
            MapAffine(ToMatrix(Inverse(o), sw, sh), MapAffine(ToMatrix(o, w, h), p)) == p
  {
  }

  lemma InsideExactly(o: Origin, w: int, h: int, p: Point)
    ensures Inside(p, Whole(SourceSize(o, w, h))) <==> Inside(MapAffine(ToMatrix(o, w, h), p), Whole((w, h)))
  {
  }

  lemma AxesOnly(o: Origin, w: int, h: int)
    ensures RectForm(ToMatrix(o, w, h))
  {
  }

  /** The header calls w and h the size of the source data; read like that, its promise holds exactly when
      the origin does not exchange the sides, or they are equal (or there is no image). */
  lemma SourceSizeReadingIff(o: Origin, w: int, h: int)
    ensures (forall p: Point :: Inside(p, Whole((w, h))) <==> Inside(MapAffine(ToMatrix(o, w, h), p), Whole((w, h))))
       <==> !SwapsWidthHeight(o) || w == h || w < 0 || h < 0
  {
    var whole, m := Whole((w, h)), ToMatrix(o, w, h);
    if !SwapsWidthHeight(o) || w == h {
      forall p: Point
        ensures Inside(p, whole) <==> Inside(MapAffine(m, p), whole)
      {
        OrientationIsBijection(o, w, h, p);
      }
    } else if w >= 0 && h >= 0 {
      var corner := Point(w as real, h as real);
      assert Inside(corner, whole) && !Inside(MapAffine(m, corner), whole);
    }
  }

  /** A source 1 wide and 2 high, rotated: its lower left corner leaves [0, 1] x [0, 2]. */
  lemma SourceSizeReadingCounterExample()
    ensures var corner := Point(0.0, 2.0);
            Inside(corner, Whole((1, 2))) && !Inside(MapAffine(ToMatrix(6, 1, 2), corner), Whole((1, 2)))
  {
  }

  // ----- The eight orientations as exchanges of axes and flips

  /** Exchange the axes or not, then flip each axis or not. */
  datatype Flips = Flips(swap: bool, x: bool, y: bool)

  function FlipsOf(o: Origin): Flips {
    match o
    case 1 => Flips(false, false, false)
    case 2 => Flips(false, true, false)
    case 3 => Flips(false, true, true)
    case 4 => Flips(false, false, true)
    case 5 => Flips(true, false, false)
    case 6 => Flips(true, true, false)
    case 7 => Flips(true, true, true)
    case _ => Flips(true, false, true)
  }

  function OriginOf(f: Flips): Origin {
    if f.swap then (if f.x then (if f.y then 7 else 6) else if f.y then 8 else 5)
    else (if f.x then (if f.y then 3 else 2) else if f.y then 4 else 1)
  }

  function Sign(flip: bool): real { if flip then -1.0 else 1.0 }

  function FlipsMatrix(f: Flips, w: int, h: int): Mat {
    [if f.swap then 0.0 else Sign(f.x), if f.swap then Sign(f.x) else 0.0, if f.x then w as real else 0.0,
     if f.swap then Sign(f.y) else 0.0, if f.swap then 0.0 else Sign(f.y), if f.y then h as real else 0.0,
     0.0, 0.0, 1.0]
  }

  lemma OriginIsFlips(o: Origin, f: Flips, w: int, h: int)
    ensures ToMatrix(o, w, h) == FlipsMatrix(FlipsOf(o), w, h)
    ensures SwapsWidthHeight(o) == FlipsOf(o).swap
    ensures OriginOf(FlipsOf(o)) == o && FlipsOf(OriginOf(f)) == f
  {
  }

  /** First b, then a: an exchange of axes in a carries b's flips over to the other axis. */
  function Then(b: Flips, a: Flips): Flips {
    Flips(a.swap != b.swap, a.x != (if a.swap then b.y else b.x), a.y != (if a.swap then b.x else b.y))
  }

  /** `b`, then `a`, is again one of the eight, with the matrix of the product. */
  lemma OrientationsCompose(a: Origin, b: Origin, w: int, h: int)
    ensures var (sw, sh) := SourceSize(a, w, h);
            Concat33(ToMatrix(a, w, h), ToMatrix(b, sw, sh)) == ToMatrix(OriginOf(Then(FlipsOf(b), FlipsOf(a))), w, h)
  {
    var (sw, sh) := SourceSize(a, w, h);
    var fa, fb := FlipsOf(a), FlipsOf(b);
    OriginIsFlips(a, fa, w, h);
    OriginIsFlips(b, fb, sw, sh);
    OriginIsFlips(OriginOf(Then(fb, fa)), Then(fb, fa), w, h);
    hide ToMatrix, OriginOf, FlipsOf;
    FlipsCompose(fa, fb, w, h);
  }

  lemma FlipsCompose(a: Flips, b: Flips, w: int, h: int)
    ensures var (sw, sh) := if a.swap then (h, w) else (w, h);
            Concat33(FlipsMatrix(a, w, h), FlipsMatrix(b, sw, sh)) == FlipsMatrix(Then(b, a), w, h)
  {
    var (sw, sh) := if a.swap then (h, w) else (w, h);
    var p, q, r := FlipsMatrix(a, w, h), FlipsMatrix(b, sw, sh), FlipsMatrix(Then(b, a), w, h);
    hide Entry33, FlipsMatrix, Concat33, RC33, Then;
    forall i, j | 0 <= i < 3 && 0 <= j < 3
      ensures RC33(Concat33(p, q), i, j) == RC33(r, i, j)
    {
      FlipsEntry(a, b, w, h, i, j);
      Concat33Entry(p, q, i, j);
    }
    EntriesDecide(Concat33(p, q), r);
  }

  lemma FlipsEntry(a: Flips, b: Flips, w: int, h: int, i: nat, j: nat)
    requires i < 3 && j < 3
    ensures var (sw, sh) := if a.swap then (h, w) else (w, h);
            Entry33(FlipsMatrix(a, w, h), FlipsMatrix(b, sw, sh), i, j) == RC33(FlipsMatrix(Then(b, a), w, h), i, j)
  {
  }

  /** Composition is associative, the default is its unit, and Inverse its inverse: the eight
      orientations form a group. */
  lemma OrientationsFormGroup(a: Origin, b: Origin, c: Origin)
    ensures var fa, fb, fc, unit := FlipsOf(a), FlipsOf(b), FlipsOf(c), FlipsOf(1);
            && Then(Then(fa, fb), fc) == Then(fa, Then(fb, fc))
            && Then(fa, unit) == fa == Then(unit, fa)
            && Then(fa, FlipsOf(Inverse(a))) == unit == Then(FlipsOf(Inverse(a)), fa)
    ensures Inverse(Inverse(a)) == a
  {
  }
}
