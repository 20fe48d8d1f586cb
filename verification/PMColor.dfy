/** Premultiplied 32-bit pixels (SkColorPriv.h): packing, the two-lane multiply and src-over. */
module PMColor {
  import opened Words
  import opened FixedPoint

  /** The two supported channel orders; alpha is always the top byte and green the second. */
  datatype Layout = RGBA | BGRA
  {
    function AShift(): nat { 24 }
    function RShift(): nat { if RGBA? then 0 else 16 }
    function GShift(): nat { 8 }
    function BShift(): nat { if RGBA? then 16 else 0 }
  }

  type Word = x: nat | x < 0x1_0000_0000

  // ----- The source's functions

  function Alpha255To256(alpha: nat): nat
    requires alpha <= 255
  {
    alpha + 1
  }

  /** `SkGetPacked*32`, for the channel at the given shift. */
  function GetPacked(packed: Word, shift: nat): nat
    requires shift <= 24
  {
    Shr(Shl32(packed, 24 - shift), 24)
  }

  function GetPackedA(packed: Word, layout: Layout): nat { GetPacked(packed, layout.AShift()) }
  function GetPackedR(packed: Word, layout: Layout): nat { GetPacked(packed, layout.RShift()) }
  function GetPackedG(packed: Word, layout: Layout): nat { GetPacked(packed, layout.GShift()) }
  function GetPackedB(packed: Word, layout: Layout): nat { GetPacked(packed, layout.BShift()) }

  /** `SkPackARGB32NoCheck`. */
  function PackNoCheck(a: nat, r: nat, g: nat, b: nat, layout: Layout): nat {
    Or(Or(Or(Shl32(a, layout.AShift()), Shl32(r, layout.RShift())),
          Shl32(g, layout.GShift())), Shl32(b, layout.BShift()))
  }

  /** `SkPackARGB32`; the precondition is what the source asserts. */
  function Pack(a: nat, r: nat, g: nat, b: nat, layout: Layout): nat
    requires a <= 255 && r <= a && g <= a && b <= a
  {
    PackNoCheck(a, r, g, b, layout)
  }

  /** `SkPremultiplyARGBInline`. */
  function Premultiply(a: nat, r: nat, g: nat, b: nat, layout: Layout): nat
    requires a <= 255 && r <= 255 && g <= 255 && b <= 255
  {
    MulDiv255OfBytes(r, a);
    MulDiv255OfBytes(g, a);
    MulDiv255OfBytes(b, a);
    if a != 255 then
      Pack(a, MulDiv255Round(r, a), MulDiv255Round(g, a), MulDiv255Round(b, a), layout)
    else
      Pack(a, r, g, b, layout)
  }

  /** `SkAlphaMulQ`: two channels per multiply, in 32-bit registers. */
  function AlphaMulQ(c: Word, scale: nat): nat {
    var mask := 0x00FF_00FF;
    var rb := Shr(Wrap32(And(c, mask) * scale), 8);
    var ag := Wrap32(And(Shr(c, 8), mask) * scale);
    Or(And(rb, mask), And(ag, Not32(mask)))
  }

  /** `SkPMSrcOver`. */
  function SrcOver(src: Word, dst: Word, layout: Layout): Word {
    GetPackedLanes(src, layout);
    Wrap32(src + AlphaMulQ(dst, Alpha255To256(255 - GetPackedA(src, layout))))
  }

  // ----- Pixels as four bytes

  /** The four bytes of a pixel, least significant first; a is alpha. */
  datatype Lanes = Lanes(x: nat, y: nat, z: nat, a: nat)
  {
    predicate Bytes() { x < 0x100 && y < 0x100 && z < 0x100 && a < 0x100 }

    predicate Premul() { Bytes() && x <= a && y <= a && z <= a }

    function Word(): nat { x + 0x100 * (y + 0x100 * (z + 0x100 * a)) }
  }

  function LanesOf(c: nat): Lanes {
    var d, e := c / 0x100, c / 0x100 / 0x100;
    Lanes(c % 0x100, d % 0x100, e % 0x100, e / 0x100)
  }

  /** A pixel whose colours are at most its alpha. */
  predicate Premul(c: Word) { LanesOf(c).Premul() }

  predicate Opaque(c: Word) { LanesOf(c).a == 255 }

  lemma LanesOfWord(l: Lanes)
    requires l.Bytes()
    ensures LanesOf(l.Word()) == l && l.Word() < W32
  {
    var e := l.z + 0x100 * l.a;
    var d := l.y + 0x100 * e;
    assert l.Word() == l.x + 0x100 * d;
    assert l.Word() / 0x100 == d && d / 0x100 == e;
  }

  lemma WordOfLanes(c: Word)
    ensures LanesOf(c).Bytes() && LanesOf(c).Word() == c
  {
  }

  /** `SkGetPacked*32` reads one byte, in either layout. */
  lemma GetPackedLanes(c: Word, layout: Layout)
    ensures var l := LanesOf(c);
            && l.Bytes()
            && GetPackedA(c, layout) == l.a
            && GetPackedG(c, layout) == l.y
            && GetPackedR(c, layout) == (if layout.RGBA? then l.x else l.z)
            && GetPackedB(c, layout) == (if layout.RGBA? then l.z else l.x)
  {
    var l := LanesOf(c);
    WordOfLanes(c);
    hide LanesOf;
    PackedBytes(l.x, l.y, l.z, l.a);
  }

  lemma PackedBytes(x: nat, y: nat, z: nat, a: nat)
    requires x < 0x100 && y < 0x100 && z < 0x100 && a < 0x100
    ensures var c := x + 0x100 * (y + 0x100 * (z + 0x100 * a));
            && c < W32
            && GetPacked(c, 24) == a && GetPacked(c, 16) == z && GetPacked(c, 8) == y && GetPacked(c, 0) == x
  {
    hide Shr, Shl32, Wrap32;
    var c := x + 0x100 * (y + 0x100 * (z + 0x100 * a));
    var yz, xyz := x + 0x100 * y, x + 0x100 * (y + 0x100 * z);
    ByteShifts(c);
    Wrap32Small(c);
    Wrap32Carry(a, 0x100 * xyz);
    Wrap32Carry(z + 0x100 * a, 0x1_0000 * yz);
    Wrap32Carry(y + 0x100 * (z + 0x100 * a), 0x100_0000 * x);
    TopByte(Shl32(c, 0), a, xyz);
    TopByte(Shl32(c, 8), z, 0x100 * yz);
    TopByte(Shl32(c, 16), y, 0x1_0000 * x);
    TopByte(Shl32(c, 24), x, 0);
  }

  lemma TopByte(c: nat, top: nat, rest: nat)
    requires c == 0x100_0000 * top + rest && rest < 0x100_0000
    ensures Shr(c, 24) == top
  {
    ByteShifts(c);
  }

  // ----- The two-lane multiply is four independent multiplies

  /** `SkAlphaMul`: one channel scaled by scale/256, rounded down. */
  function ScaleByte(v: nat, scale: nat): (r: nat)
    requires v < 0x100 && scale <= 256
    ensures r <= v
  {
    ProductBound(v, 256 - scale, 256);
    assert v * scale == 256 * v - v * (256 - scale);
    v * scale / 0x100
  }

  function ScaleLanes(l: Lanes, scale: nat): Lanes
    requires l.Bytes() && scale <= 256
  {
    Lanes(ScaleByte(l.x, scale), ScaleByte(l.y, scale), ScaleByte(l.z, scale), ScaleByte(l.a, scale))
  }

  /** A pair of bytes kept 16 bits apart: one multiply scales both without interference. */
  lemma PairMultiply(p: nat, q: nat, scale: nat)
    requires p < 0x100 && q < 0x100 && scale <= 256
    ensures var v := (p + 0x1_0000 * q) * scale;
            && v < W32
            && And(Shr(v, 8), 0x00FF_00FF) == ScaleByte(p, scale) + 0x1_0000 * ScaleByte(q, scale)
            && And(v, 0xFF00_FF00) == 0x100 * ScaleByte(p, scale) + 0x100_0000 * ScaleByte(q, scale)
  {
    hide And, Shr;
    var v := (p + 0x1_0000 * q) * scale;
    var ph, qh := ScaleByte(p, scale), ScaleByte(q, scale);
    var pl, ql := p * scale % 0x100, q * scale % 0x100;
    assert v == pl + 0x100 * ph + 0x1_0000 * ql + 0x100_0000 * qh by {
      assert v == p * scale + 0x1_0000 * (q * scale);
    }
    hide ScaleByte;
    PairBytes(pl, ph, ql, qh, v);
  }

  lemma PairBytes(b0: nat, b1: nat, b2: nat, b3: nat, v: nat)
    requires b0 < 0x100 && b1 < 0x100 && b2 < 0x100 && b3 < 0x100
    requires v == b0 + 0x100 * b1 + 0x1_0000 * b2 + 0x100_0000 * b3
    ensures v < W32
    ensures And(Shr(v, 8), 0x00FF_00FF) == b1 + 0x1_0000 * b3
    ensures And(v, 0xFF00_FF00) == 0x100 * b1 + 0x100_0000 * b3
  {
    hide And;
    ByteShifts(v);
    hide Shr;
    assert v / 0x100 == b1 + 0x100 * b2 + 0x1_0000 * b3;
    AndEvenBytes(b1, b2, b3, 0);
    AndOddBytes(b0, b1, b2, b3);
  }

  /** The two masked halves of a pixel. */
  lemma SplitPixel(c: Word)
    ensures var l := LanesOf(c);
            && l.Bytes()
            && And(c, 0x00FF_00FF) == l.x + 0x1_0000 * l.z
            && And(Shr(c, 8), 0x00FF_00FF) == l.y + 0x1_0000 * l.a
  {
    hide And;
    var l := LanesOf(c);
    WordOfLanes(c);
    PairBytes(l.x, l.y, l.z, l.a, c);
    AndEvenBytes(l.x, l.y, l.z, l.a);
  }

  /** `SkAlphaMulQ` scales each of the four bytes by scale/256, for every pixel and every scale up to
      256. */
  lemma AlphaMulQLanes(c: Word, scale: nat)
    requires scale <= 256
    ensures AlphaMulQ(c, scale) < W32
    ensures LanesOf(AlphaMulQ(c, scale)) == ScaleLanes(LanesOf(c), scale)
  {
    hide *;
    SplitPixel(c);
    var l := LanesOf(c);
    ScaledHalves(l, scale);
    MergeHalves(c, scale, (l.x + 0x1_0000 * l.z) * scale, (l.y + 0x1_0000 * l.a) * scale, ScaleLanes(l, scale));
  }

  lemma ScaledHalves(l: Lanes, scale: nat)
    requires l.Bytes() && scale <= 256
    ensures var m, rb, ag := ScaleLanes(l, scale), (l.x + 0x1_0000 * l.z) * scale, (l.y + 0x1_0000 * l.a) * scale;
            && m.Bytes() && 0 <= rb < W32 && 0 <= ag < W32
            && And(Shr(rb, 8), 0x00FF_00FF) == m.x + 0x1_0000 * m.z
            && And(ag, 0xFF00_FF00) == 0x100 * m.y + 0x100_0000 * m.a
  {
    hide And, Shr, ScaleByte;
    PairMultiply(l.x, l.z, scale);
    PairMultiply(l.y, l.a, scale);
  }

  /** The last line of `SkAlphaMulQ`: the halves rb and ag interleave to the four result bytes. */
  lemma MergeHalves(c: Word, scale: nat, rb: nat, ag: nat, m: Lanes)
    requires m.Bytes() && rb < W32 && ag < W32
    requires And(c, 0x00FF_00FF) * scale == rb && And(Shr(rb, 8), 0x00FF_00FF) == m.x + 0x1_0000 * m.z
    requires And(Shr(c, 8), 0x00FF_00FF) * scale == ag && And(ag, 0xFF00_FF00) == 0x100 * m.y + 0x100_0000 * m.a
    ensures AlphaMulQ(c, scale) == m.Word()
    ensures m.Word() < W32 && LanesOf(m.Word()) == m
  {
    hide And, Or, Shr, LanesOf;
    Wrap32Small(rb);
    Wrap32Small(ag);
    hide Wrap32;
    OrFourBytes(m.x, 0, m.z, 0, 0, m.y, 0, m.a);
    LanesOfWord(m);
  }

  /** Scale 256 is the identity. */
  lemma AlphaMulQIdentity(c: Word)
    ensures AlphaMulQ(c, 256) == c
  {
    AlphaMulQLanes(c, 256);
    hide AlphaMulQ;
    WordOfLanes(c);
    WordOfLanes(AlphaMulQ(c, 256));
    assert ScaleLanes(LanesOf(c), 256) == LanesOf(c);
  }

  // ----- Src-over

  /** A colour never exceeds its alpha, so adding it to the scaled destination stays in a byte. */
  lemma BlendByte(c: nat, alpha: nat, d: nat)
    requires c <= alpha <= 255 && d <= 255
    ensures c + ScaleByte(d, 256 - alpha) <= 255
    ensures c == alpha && d == 255 ==> c + ScaleByte(d, 256 - alpha) == 255
    ensures alpha == 0 ==> ScaleByte(d, 256 - alpha) == d
    ensures alpha == 255 ==> ScaleByte(d, 256 - alpha) == 0
  {
    assert d * (256 - alpha) <= 255 * (256 - alpha);
  }

  /** Byte-wise source over destination. */
  function OverLanes(s: Lanes, d: Lanes): Lanes
    requires s.Premul() && d.Bytes()
  {
    Lanes(s.x + ScaleByte(d.x, 256 - s.a), s.y + ScaleByte(d.y, 256 - s.a),
          s.z + ScaleByte(d.z, 256 - s.a), s.a + ScaleByte(d.a, 256 - s.a))
  }

  lemma SrcOverSum(src: Word, dst: Word, layout: Layout)
    ensures LanesOf(src).Bytes() && LanesOf(dst).Bytes()
    ensures SrcOver(src, dst, layout)
         == Wrap32(LanesOf(src).Word() + ScaleLanes(LanesOf(dst), 256 - LanesOf(src).a).Word())
  {
    hide LanesOf, GetPackedA, ScaleLanes, AlphaMulQ, Wrap32, Lanes.Word;
    GetPackedLanes(src, layout);
    WordOfLanes(src);
    WordOfLanes(dst);
    AlphaMulQLanes(dst, 256 - LanesOf(src).a);
    WordOfLanes(AlphaMulQ(dst, 256 - LanesOf(src).a));
  }

  lemma OverBytes(s: Lanes, d: Lanes)
    requires s.Premul() && d.Bytes()
    ensures OverLanes(s, d).Bytes()
    ensures (s.a == 255 || s == Lanes(0, 0, 0, 0)) ==> OverLanes(s, d) == if s.a == 255 then s else d
    ensures d.a == 255 ==> OverLanes(s, d).a == 255
    ensures s.Word() + ScaleLanes(d, 256 - s.a).Word() == OverLanes(s, d).Word()
  {
    BlendByte(s.x, s.a, d.x);
    BlendByte(s.y, s.a, d.y);
    BlendByte(s.z, s.a, d.z);
    BlendByte(s.a, s.a, d.a);
    hide ScaleByte;
  }

  /** For a premultiplied source over any destination, the one 32-bit addition is four separate byte
      additions: nothing carries. */
  lemma SrcOverLanes(src: Word, dst: Word, layout: Layout)
    requires Premul(src)
    ensures LanesOf(dst).Bytes() && OverLanes(LanesOf(src), LanesOf(dst)).Bytes()
    ensures LanesOf(SrcOver(src, dst, layout)) == OverLanes(LanesOf(src), LanesOf(dst))
  {
    hide SrcOver, LanesOf, OverLanes, ScaleLanes, Wrap32, Lanes.Word;
    SrcOverSum(src, dst, layout);
    var s, d := LanesOf(src), LanesOf(dst);
    OverBytes(s, d);
    var m := OverLanes(s, d);
    LanesOfWord(m);
    Wrap32Small(m.Word());
  }

  lemma OverPremul(s: Lanes, d: Lanes)
    requires s.Premul() && d.Premul()
    ensures OverLanes(s, d).Premul()
  {
    hide ScaleByte, Lanes.Word;
    OverBytes(s, d);
    ScaleMonotone(d.x, d.a, 256 - s.a);
    ScaleMonotone(d.y, d.a, 256 - s.a);
    ScaleMonotone(d.z, d.a, 256 - s.a);
  }

  /** Premultiplied over premultiplied is premultiplied, and an opaque destination stays opaque. */
  lemma SrcOverInvariant(src: Word, dst: Word, layout: Layout)
    requires Premul(src)
    ensures Premul(dst) ==> Premul(SrcOver(src, dst, layout))
    ensures Opaque(dst) ==> Opaque(SrcOver(src, dst, layout))
  {
    SrcOverLanes(src, dst, layout);
    hide SrcOver, LanesOf, OverLanes;
    var s, d := LanesOf(src), LanesOf(dst);
    OverBytes(s, d);
    if Premul(dst) {
      OverPremul(s, d);
    }
  }

  lemma ScaleMonotone(v: nat, w: nat, scale: nat)
    requires v <= w < 0x100 && scale <= 256
    ensures ScaleByte(v, scale) <= ScaleByte(w, scale)
  {
    assert w * scale - v * scale == (w - v) * scale;
    ProductBound(w - v, scale, 256);
  }

  lemma LanesInjective(c: Word, d: Word)
    requires LanesOf(c) == LanesOf(d)
    ensures c == d
  {
    WordOfLanes(c);
    WordOfLanes(d);
  }

  /** The transparent pixel changes nothing; an opaque source replaces the destination. */
  lemma SrcOverExtremes(src: Word, dst: Word, layout: Layout)
    ensures src == 0 ==> SrcOver(src, dst, layout) == dst
    ensures Premul(src) && Opaque(src) ==> SrcOver(src, dst, layout) == src
  {
    assert src == 0 ==> LanesOf(src) == Lanes(0, 0, 0, 0);
    hide SrcOver, LanesOf, OverLanes;
    if Premul(src) {
      SrcOverLanes(src, dst, layout);
      OverBytes(LanesOf(src), LanesOf(dst));
      if src == 0 {
        LanesInjective(SrcOver(src, dst, layout), dst);
      } else if Opaque(src) {
        LanesInjective(SrcOver(src, dst, layout), src);
      }
    }
  }

  // ----- Packing and premultiplying

  /** Packing four bytes and reading them back, in either layout. */
  lemma PackRoundTrip(a: nat, r: nat, g: nat, b: nat, layout: Layout)
    requires a <= 255 && r <= 255 && g <= 255 && b <= 255
    ensures var c := PackNoCheck(a, r, g, b, layout);
            && c < W32
            && GetPackedA(c, layout) == a && GetPackedR(c, layout) == r
            && GetPackedG(c, layout) == g && GetPackedB(c, layout) == b
            && LanesOf(c) == if layout.RGBA? then Lanes(r, g, b, a) else Lanes(b, g, r, a)
  {
    var l := if layout.RGBA? then Lanes(r, g, b, a) else Lanes(b, g, r, a);
    PackIsWord(a, r, g, b, layout);
    LanesOfWord(l);
    hide PackNoCheck, LanesOf;
    GetPackedLanes(l.Word(), layout);
  }

  lemma ByteInPlace(v: nat)
    requires v < 0x100
    ensures Shl32(v, 0) == v && Shl32(v, 8) == 0x100 * v
    ensures Shl32(v, 16) == 0x1_0000 * v && Shl32(v, 24) == 0x100_0000 * v
  {
    ByteShifts(v);
  }

  lemma PackIsWord(a: nat, r: nat, g: nat, b: nat, layout: Layout)
    requires a <= 255 && r <= 255 && g <= 255 && b <= 255
    ensures PackNoCheck(a, r, g, b, layout)
         == (if layout.RGBA? then Lanes(r, g, b, a) else Lanes(b, g, r, a)).Word()
  {
    PackIsOr(a, r, g, b, layout);
    hide PackNoCheck;
    if layout.RGBA? {
      OrLowFirst(a, r, g, b);
    } else {
      OrHighFirst(a, r, g, b);
    }
  }

  lemma OrLowFirst(a: nat, r: nat, g: nat, b: nat)
    requires a < 0x100 && r < 0x100 && g < 0x100 && b < 0x100
    ensures Or(Or(Or(0x100_0000 * a, r), 0x100 * g), 0x1_0000 * b)
         == r + 0x100 * (g + 0x100 * (b + 0x100 * a))
  {
    hide Or;
    OrFourBytes(0, 0, 0, a, r, 0, 0, 0);
    OrFourBytes(r, 0, 0, a, 0, g, 0, 0);
    OrFourBytes(r, g, 0, a, 0, 0, b, 0);
  }

  lemma OrHighFirst(a: nat, r: nat, g: nat, b: nat)
    requires a < 0x100 && r < 0x100 && g < 0x100 && b < 0x100
    ensures Or(Or(Or(0x100_0000 * a, 0x1_0000 * r), 0x100 * g), b)
         == b + 0x100 * (g + 0x100 * (r + 0x100 * a))
  {
    hide Or;
    OrFourBytes(0, 0, 0, a, 0, 0, r, 0);
    OrFourBytes(0, 0, r, a, 0, g, 0, 0);
    OrFourBytes(0, g, r, a, b, 0, 0, 0);
  }

  lemma PackIsOr(a: nat, r: nat, g: nat, b: nat, layout: Layout)
    requires a <= 255 && r <= 255 && g <= 255 && b <= 255
    ensures PackNoCheck(a, r, g, b, layout)
         == Or(Or(Or(0x100_0000 * a, if layout.RGBA? then r else 0x1_0000 * r), 0x100 * g),
               if layout.RGBA? then 0x1_0000 * b else b)
  {
    ByteInPlace(a);
    ByteInPlace(r);
    ByteInPlace(g);
    ByteInPlace(b);
    hide Or, Shl32;
  }

  /** `SkPremultiplyARGBInline` yields a premultiplied pixel with the given alpha whose colours are the
      exact roundings of colour * alpha / 255; the shortcut for alpha 255 agrees with the general path. */
  lemma PremultiplyExact(a: nat, r: nat, g: nat, b: nat, layout: Layout)
    requires a <= 255 && r <= 255 && g <= 255 && b <= 255
    ensures var c := Premultiply(a, r, g, b, layout);
            && c < W32 && Premul(c) && GetPackedA(c, layout) == a
            && Nearest(GetPackedR(c, layout), r * a, 255)
            && Nearest(GetPackedG(c, layout), g * a, 255)
            && Nearest(GetPackedB(c, layout), b * a, 255)
    ensures Premultiply(a, r, g, b, layout)
         == PackNoCheck(a, MulDiv255Round(r, a), MulDiv255Round(g, a), MulDiv255Round(b, a), layout)
  {
    MulDiv255OfBytes(r, a);
    MulDiv255OfBytes(g, a);
    MulDiv255OfBytes(b, a);
    hide MulDiv255Round, PackNoCheck, LanesOf, GetPackedA, GetPackedR, GetPackedG, GetPackedB, Nearest;
    PackRoundTrip(a, MulDiv255Round(r, a), MulDiv255Round(g, a), MulDiv255Round(b, a), layout);
  }
}
