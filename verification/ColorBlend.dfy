/** Interpolating and blending premultiplied pixels (SkColorData.h). */
module ColorBlend {
  import opened Words
  import opened FixedPoint
  import opened PMColor

  // ----- The source's functions

  /** `SkAlphaMulInv256`. */
  function AlphaMulInv256(value: nat, alpha256: nat): nat
    requires value <= 255 && alpha256 <= 256
  {
    ProductBound(value, alpha256, 256);
    ProductBound(255 - value, alpha256, 256);
    assert value * alpha256 == 255 * alpha256 - (255 - value) * alpha256;
    var prod := 0xFFFF - value * alpha256;
    (prod + prod / 0x100) / 0x100
  }

  /** `SkAlphaBlend`: the shift of a possibly negative product rounds towards minus infinity. */
  function AlphaBlend(src: int, dst: int, scale256: nat): int
    requires scale256 <= 256
  {
    dst + (src - dst) * scale256 / 0x100
  }

  /** `SkFourByteInterp256`, channel by channel. */
  function FourByteInterp256(src: Word, dst: Word, scale: nat, layout: Layout): nat
    requires scale <= 256 && Premul(src) && Premul(dst)
  {
    BlendedChannels(src, dst, scale, layout);
    Pack(AlphaBlend(GetPackedA(src, layout), GetPackedA(dst, layout), scale),
         AlphaBlend(GetPackedR(src, layout), GetPackedR(dst, layout), scale),
         AlphaBlend(GetPackedG(src, layout), GetPackedG(dst, layout), scale),
         AlphaBlend(GetPackedB(src, layout), GetPackedB(dst, layout), scale), layout)
  }

  /** `SkFourByteInterp`. */
  function FourByteInterp(src: Word, dst: Word, weight: nat, layout: Layout): nat
    requires weight <= 255 && Premul(src) && Premul(dst)
  {
    FourByteInterp256(src, dst, Alpha255To256(weight), layout)
  }

  /** `SkSplay` to two 32-bit words: the odd and the even bytes. */
  function SplayAG(color: Word): nat { And(Shr(color, 8), 0x00FF_00FF) }

  function SplayRB(color: Word): nat { And(color, 0x00FF_00FF) }

  /** `SkUnsplay` from two 32-bit words. */
  function Unsplay(ag: nat, rb: nat): nat {
    var mask := 0xFF00_FF00;
    Or(And(ag, mask), Shr(And(rb, mask), 8))
  }

  /** Two products and their sum, each in a 32-bit register. */
  function WeightedSum32(u: nat, v: nat, uScale: nat, vScale: nat): nat {
    Wrap32(Wrap32(u * uScale) + Wrap32(v * vScale))
  }

  /** `SkFastFourByteInterp256_32`. */
  function FastInterp32(src: Word, dst: Word, scale: nat): nat
    requires scale <= 256
  {
    Unsplay(WeightedSum32(SplayAG(src), SplayAG(dst), scale, 256 - scale),
            WeightedSum32(SplayRB(src), SplayRB(dst), scale, 256 - scale))
  }

  /** `SkSplay` to one 64-bit word. */
  function Splay64(color: Word): nat {
    Or(Wrap64(0x1_0000_0000 * And(Shr(color, 8), 0x00FF_00FF)), And(color, 0x00FF_00FF))
  }

  /** `SkUnsplay` from one 64-bit word. */
  function Unsplay64(agrb: nat): nat {
    var mask := 0xFF00_FF00;
    Wrap32(Or(Shr(And(agrb, mask), 8), And(agrb / 0x1_0000_0000, mask)))
  }

  /** `SkFastFourByteInterp256_64`. */
  function FastInterp64(src: Word, dst: Word, scale: nat): nat
    requires scale <= 256
  {
    Unsplay64(WeightedSum64(Splay64(src), Splay64(dst), scale, 256 - scale))
  }

  /** Two products and their sum, each in a 64-bit register. */
  function WeightedSum64(u: nat, v: nat, uScale: nat, vScale: nat): nat {
    Wrap64(Wrap64(u * uScale) + Wrap64(v * vScale))
  }

  /** `SkFastFourByteInterp256` (and `SkPMLerp`): the pointer size picks the implementation. */
  function FastInterp256(src: Word, dst: Word, scale: nat, pointerBytes: nat): nat
    requires scale <= 256
  {
    if pointerBytes == 4 then FastInterp32(src, dst, scale) else FastInterp64(src, dst, scale)
  }

  /** `SkFastFourByteInterp`. */
  function FastInterp(src: Word, dst: Word, weight: nat, pointerBytes: nat): nat
    requires weight <= 255
  {
    FastInterp256(src, dst, weight + weight / 0x80, pointerBytes)
  }

  /** `SkBlendARGB32`. */
  function BlendARGB32(src: Word, dst: Word, aa: nat, layout: Layout): nat
    requires aa <= 255
  {
    GetPackedLanes(src, layout);
    var srcScale := Alpha255To256(aa);
    var dstScale := AlphaMulInv256(GetPackedA(src, layout), srcScale);
    var mask := 0x00FF_00FF;
    var rb := WeightedSum32(And(src, mask), And(dst, mask), srcScale, dstScale);
    var ag := WeightedSum32(And(Shr(src, 8), mask), And(Shr(dst, 8), mask), srcScale, dstScale);
    Or(And(Shr(rb, 8), mask), And(ag, Not32(mask)))
  }

  // ----- Byte-wise meaning

  /** The weighted sum behind one interpolated byte. */
  function LerpSum(s: nat, d: nat, scale: nat): (r: nat)
    requires s < 0x100 && d < 0x100 && scale <= 256
    ensures r <= 0xFF00
  {
    LerpRange(s, d, scale, 0, 255);
    s * scale + (256 - scale) * d
  }

  /** The exact interpolation of one byte, rounded down. */
  function LerpByte(s: nat, d: nat, scale: nat): (r: nat)
    requires s < 0x100 && d < 0x100 && scale <= 256
    ensures r < 0x100
  {
    LerpSum(s, d, scale) / 0x100
  }

  lemma LerpRange(s: nat, d: nat, scale: nat, lo: nat, hi: nat)
    requires lo <= s <= hi && lo <= d <= hi && scale <= 256
    ensures lo * 256 <= s * scale + (256 - scale) * d <= hi * 256
  {
    var t := 256 - scale;
    MulOrder(lo, s, scale);
    MulOrder(lo, d, t);
    MulOrder(s, hi, scale);
    MulOrder(d, hi, t);
    assert lo * scale + lo * t == lo * 256 && hi * scale + hi * t == hi * 256;
  }

  function LerpLanes(s: Lanes, d: Lanes, scale: nat): (m: Lanes)
    requires s.Bytes() && d.Bytes() && scale <= 256
    ensures m.Bytes()
  {
    Lanes(LerpByte(s.x, d.x, scale), LerpByte(s.y, d.y, scale), LerpByte(s.z, d.z, scale), LerpByte(s.a, d.a, scale))
  }

  lemma LerpMonotone(s: nat, s': nat, d: nat, d': nat, scale: nat)
    requires s <= s' < 0x100 && d <= d' < 0x100 && scale <= 256
    ensures LerpByte(s, d, scale) <= LerpByte(s', d', scale)
  {
    MulOrder(s, s', scale);
    MulOrder(d, d', 256 - scale);
  }

  /** The signed shift form and the weighted sum form are the same byte. */
  lemma AlphaBlendIsLerp(s: nat, d: nat, scale: nat)
    requires s < 0x100 && d < 0x100 && scale <= 256
    ensures AlphaBlend(s, d, scale) == LerpByte(s, d, scale)
  {
    var p := (s - d) * scale;
    assert s * scale + (256 - scale) * d == 0x100 * d + p;
    assert (0x100 * d + p) / 0x100 == d + p / 0x100;
  }

  lemma BlendedChannels(src: Word, dst: Word, scale: nat, layout: Layout)
    requires scale <= 256 && Premul(src) && Premul(dst)
    ensures var s, d := LanesOf(src), LanesOf(dst);
            && AlphaBlend(GetPackedA(src, layout), GetPackedA(dst, layout), scale) == LerpByte(s.a, d.a, scale)
            && AlphaBlend(GetPackedG(src, layout), GetPackedG(dst, layout), scale) == LerpByte(s.y, d.y, scale)
            && AlphaBlend(GetPackedR(src, layout), GetPackedR(dst, layout), scale)
               == (if layout.RGBA? then LerpByte(s.x, d.x, scale) else LerpByte(s.z, d.z, scale))
            && AlphaBlend(GetPackedB(src, layout), GetPackedB(dst, layout), scale)
               == (if layout.RGBA? then LerpByte(s.z, d.z, scale) else LerpByte(s.x, d.x, scale))
            && LerpLanes(s, d, scale).Premul()
  {
    var s, d := LanesOf(src), LanesOf(dst);
    GetPackedLanes(src, layout);
    GetPackedLanes(dst, layout);
    hide LanesOf, GetPackedA, GetPackedR, GetPackedG, GetPackedB;
    hide LerpSum;
    AlphaBlendIsLerp(s.a, d.a, scale);
    AlphaBlendIsLerp(s.x, d.x, scale);
    AlphaBlendIsLerp(s.y, d.y, scale);
    AlphaBlendIsLerp(s.z, d.z, scale);
    hide AlphaBlend;
    LerpPremul(s, d, scale);
  }

  /** Interpolating premultiplied pixels gives a premultiplied pixel. */
  lemma LerpPremul(s: Lanes, d: Lanes, scale: nat)
    requires s.Premul() && d.Premul() && scale <= 256
    ensures LerpLanes(s, d, scale).Premul()
  {
    LerpMonotone(s.x, s.a, d.x, d.a, scale);
    LerpMonotone(s.y, s.a, d.y, d.a, scale);
    LerpMonotone(s.z, s.a, d.z, d.a, scale);
    hide LerpByte;
  }

  // ----- Two sums in one word

  /** Two 16-bit sums kept in one word, and the byte each of them contributes. */
  lemma PairSum(p: nat, q: nat, v: nat)
    requires p < 0x1_0000 && q < 0x1_0000 && v == p + 0x1_0000 * q
    ensures v < W32
    ensures And(Shr(v, 8), 0x00FF_00FF) == p / 0x100 + 0x1_0000 * (q / 0x100)
    ensures And(v, 0xFF00_FF00) == 0x100 * (p / 0x100) + 0x100_0000 * (q / 0x100)
    ensures Shr(And(v, 0xFF00_FF00), 8) == p / 0x100 + 0x1_0000 * (q / 0x100)
  {
    hide And, Shr;
    PairBytes(p % 0x100, p / 0x100, q % 0x100, q / 0x100, v);
    ByteShifts(And(v, 0xFF00_FF00));
  }

  /** The odd bytes of one word and the even bytes of another make a pixel. */
  lemma JoinPairs(m: Lanes)
    requires m.Bytes()
    ensures Or(0x100 * m.y + 0x100_0000 * m.a, m.x + 0x1_0000 * m.z) == m.Word()
    ensures Or(m.x + 0x1_0000 * m.z, 0x100 * m.y + 0x100_0000 * m.a) == m.Word()
  {
    hide Or;
    OrFourBytes(0, m.y, 0, m.a, m.x, 0, m.z, 0);
    OrFourBytes(m.x, 0, m.z, 0, 0, m.y, 0, m.a);
  }

  // ----- The fast interpolations are exact

  /** The two spread sums of a pixel. */
  function SumAG(s: Lanes, d: Lanes, scale: nat): (r: nat)
    requires s.Bytes() && d.Bytes() && scale <= 256
  {
    LerpSum(s.y, d.y, scale) + 0x1_0000 * LerpSum(s.a, d.a, scale)
  }

  function SumRB(s: Lanes, d: Lanes, scale: nat): (r: nat)
    requires s.Bytes() && d.Bytes() && scale <= 256
  {
    LerpSum(s.x, d.x, scale) + 0x1_0000 * LerpSum(s.z, d.z, scale)
  }

  lemma SpreadLerp(u: nat, u': nat, p: nat, q: nat, p': nat, q': nat, scale: nat)
    requires p < 0x100 && q < 0x100 && p' < 0x100 && q' < 0x100 && scale <= 256
    requires u == p + 0x1_0000 * q && u' == p' + 0x1_0000 * q'
    ensures u * scale + (256 - scale) * u' == LerpSum(p, p', scale) + 0x1_0000 * LerpSum(q, q', scale)
    ensures WeightedSum32(u, u', scale, 256 - scale) == LerpSum(p, p', scale) + 0x1_0000 * LerpSum(q, q', scale)
  {
    var t := 256 - scale;
    assert u * scale == p * scale + 0x1_0000 * (q * scale);
    assert t * u' == t * p' + 0x1_0000 * (t * q');
    var total := LerpSum(p, p', scale) + 0x1_0000 * LerpSum(q, q', scale);
    assert u * scale + t * u' == total;
    hide LerpSum;
    NoWrap32(u, u', scale, t);
  }

  lemma NoWrap32(u: nat, v: nat, uScale: nat, vScale: nat)
    requires u * uScale + v * vScale < W32
    ensures WeightedSum32(u, v, uScale, vScale) == u * uScale + v * vScale
  {
    Product(u, uScale);
    Product(v, vScale);
  }

  lemma NoWrap64(u: nat, v: nat, uScale: nat, vScale: nat)
    requires u * uScale + v * vScale < W64
    ensures WeightedSum64(u, v, uScale, vScale) == u * uScale + v * vScale
  {
    Product(u, uScale);
    Product(v, vScale);
  }

  /** The two registers of the 32-bit form: no product and no sum wraps. */
  lemma SplayLerp(src: Word, dst: Word, scale: nat)
    requires scale <= 256
    ensures var s, d := LanesOf(src), LanesOf(dst);
            && s.Bytes() && d.Bytes()
            && SplayAG(src) * scale + (256 - scale) * SplayAG(dst) == SumAG(s, d, scale)
            && SplayRB(src) * scale + (256 - scale) * SplayRB(dst) == SumRB(s, d, scale)
            && WeightedSum32(SplayAG(src), SplayAG(dst), scale, 256 - scale) == SumAG(s, d, scale)
            && WeightedSum32(SplayRB(src), SplayRB(dst), scale, 256 - scale) == SumRB(s, d, scale)
  {
    SplitPixel(src);
    SplitPixel(dst);
    hide And, Shr, LanesOf, LerpSum, WeightedSum32;
    var s, d := LanesOf(src), LanesOf(dst);
    SpreadLerp(SplayAG(src), SplayAG(dst), s.y, s.a, d.y, d.a, scale);
    SpreadLerp(SplayRB(src), SplayRB(dst), s.x, s.z, d.x, d.z, scale);
  }

  lemma UnsplaySums(s: Lanes, d: Lanes, scale: nat)
    requires s.Bytes() && d.Bytes() && scale <= 256
    ensures Unsplay(SumAG(s, d, scale), SumRB(s, d, scale)) == LerpLanes(s, d, scale).Word()
    ensures SumAG(s, d, scale) < W32 && SumRB(s, d, scale) < W32
  {
    hide And, Or, Shr, LerpSum;
    PairSum(LerpSum(s.y, d.y, scale), LerpSum(s.a, d.a, scale), SumAG(s, d, scale));
    PairSum(LerpSum(s.x, d.x, scale), LerpSum(s.z, d.z, scale), SumRB(s, d, scale));
    JoinPairs(LerpLanes(s, d, scale));
  }

  /** The 32-bit form interpolates every byte exactly, for any two pixels. */
  lemma FastInterp32Lanes(src: Word, dst: Word, scale: nat)
    requires scale <= 256
    ensures LanesOf(src).Bytes() && LanesOf(dst).Bytes()
    ensures FastInterp32(src, dst, scale) == LerpLanes(LanesOf(src), LanesOf(dst), scale).Word()
  {
    SplayLerp(src, dst, scale);
    hide SplayAG, SplayRB, Unsplay, WeightedSum32, LanesOf, SumAG, SumRB, LerpLanes;
    UnsplaySums(LanesOf(src), LanesOf(dst), scale);
  }

  lemma Splay64Value(color: Word)
    ensures Splay64(color) == 0x1_0000_0000 * SplayAG(color) + SplayRB(color)
    ensures SplayAG(color) <= 0x00FF_00FF && SplayRB(color) <= 0x00FF_00FF
  {
    SplitPixel(color);
    hide And, Or, Shr, Wrap64;
    Wrap64Small(0x1_0000_0000 * And(Shr(color, 8), 0x00FF_00FF));
    WordHalves(And(Shr(color, 8), 0x00FF_00FF), And(color, 0x00FF_00FF), 0);
  }

  lemma Unsplay64Value(ag: Word, rb: Word)
    ensures Unsplay64(0x1_0000_0000 * ag + rb) == Wrap32(Or(Shr(And(rb, 0xFF00_FF00), 8), And(ag, 0xFF00_FF00)))
  {
    hide And, Or, Shr, Wrap32;
    WordHalves(ag, rb, 0xFF00_FF00);
    assert (0x1_0000_0000 * ag + rb) / 0x1_0000_0000 == ag;
  }

  /** Unpacking the 64-bit sum gives the same pixel as unpacking the two 32-bit sums. */
  lemma Unsplay64Sums(s: Lanes, d: Lanes, scale: nat)
    requires s.Bytes() && d.Bytes() && scale <= 256
    ensures Unsplay64(0x1_0000_0000 * SumAG(s, d, scale) + SumRB(s, d, scale)) == LerpLanes(s, d, scale).Word()
  {
    hide And, Or, Shr, LerpSum, Wrap32;
    var m := LerpLanes(s, d, scale);
    PairSum(LerpSum(s.y, d.y, scale), LerpSum(s.a, d.a, scale), SumAG(s, d, scale));
    PairSum(LerpSum(s.x, d.x, scale), LerpSum(s.z, d.z, scale), SumRB(s, d, scale));
    Unsplay64Value(SumAG(s, d, scale), SumRB(s, d, scale));
    JoinPairs(m);
    Wrap32Small(m.Word());
  }

  /** The 64-bit form interpolates every byte exactly, for any two pixels. */
  lemma FastInterp64Lanes(src: Word, dst: Word, scale: nat)
    requires scale <= 256
    ensures LanesOf(src).Bytes() && LanesOf(dst).Bytes()
    ensures FastInterp64(src, dst, scale) == LerpLanes(LanesOf(src), LanesOf(dst), scale).Word()
  {
    hide SplayAG, SplayRB, Splay64, Unsplay64, WeightedSum32, WeightedSum64;
    hide LanesOf, SumAG, SumRB, LerpLanes, Lanes.Word;
    SplayLerp(src, dst, scale);
    Splay64Value(src);
    Splay64Value(dst);
    var s, d := LanesOf(src), LanesOf(dst);
    Unsplay64Sums(s, d, scale);
    UnsplaySums(s, d, scale);
    Sum64(Splay64(src), Splay64(dst), SplayAG(src), SplayRB(src), SplayAG(dst), SplayRB(dst), scale,
          SumAG(s, d, scale), SumRB(s, d, scale));
  }

  lemma Sum64(u: nat, u': nat, ag: nat, rb: nat, ag': nat, rb': nat, scale: nat, sumAG: nat, sumRB: nat)
    requires scale <= 256 && u == 0x1_0000_0000 * ag + rb && u' == 0x1_0000_0000 * ag' + rb'
    requires ag * scale + (256 - scale) * ag' == sumAG && rb * scale + (256 - scale) * rb' == sumRB
    requires sumAG < W32 && sumRB < W32
    ensures WeightedSum64(u, u', scale, 256 - scale) == 0x1_0000_0000 * sumAG + sumRB
  {
    var t := 256 - scale;
    assert u * scale == 0x1_0000_0000 * (ag * scale) + rb * scale;
    assert t * u' == 0x1_0000_0000 * (t * ag') + t * rb';
    NoWrap64(u, u', scale, t);
  }

  /** The slow channel-by-channel form, on the premultiplied pixels its asserts demand. */
  lemma FourByteInterpLanes(src: Word, dst: Word, scale: nat, layout: Layout)
    requires scale <= 256 && Premul(src) && Premul(dst)
    ensures FourByteInterp256(src, dst, scale, layout) == LerpLanes(LanesOf(src), LanesOf(dst), scale).Word()
  {
    var m := LerpLanes(LanesOf(src), LanesOf(dst), scale);
    BlendedChannels(src, dst, scale, layout);
    hide AlphaBlend, LerpByte, LanesOf, PackNoCheck, GetPackedA, GetPackedR, GetPackedG, GetPackedB;
    if layout.RGBA? {
      PackIsWord(m.a, m.x, m.y, m.z, layout);
    } else {
      PackIsWord(m.a, m.z, m.y, m.x, layout);
    }
  }

  /** All implementations agree: both fast forms on every pair of pixels and every scale, and the slow
      form with them wherever it may be called. */
  lemma InterpolationsAgree(src: Word, dst: Word, scale: nat, layout: Layout, pointerBytes: nat)
    requires scale <= 256
    ensures FastInterp32(src, dst, scale) == FastInterp64(src, dst, scale)
    ensures Premul(src) && Premul(dst)
            ==> FastInterp256(src, dst, scale, pointerBytes) == FourByteInterp256(src, dst, scale, layout)
  {
    FastInterp32Lanes(src, dst, scale);
    FastInterp64Lanes(src, dst, scale);
    hide FastInterp32, FastInterp64, LanesOf, LerpLanes, FourByteInterp256;
    if Premul(src) && Premul(dst) {
      FourByteInterpLanes(src, dst, scale, layout);
    }
  }

  /** Interpolation stays premultiplied and, byte by byte, between its two ends. */
  lemma InterpolationRange(src: Word, dst: Word, scale: nat, pointerBytes: nat)
    requires scale <= 256
    ensures var c := FastInterp256(src, dst, scale, pointerBytes);
            && c < W32
            && (Premul(src) && Premul(dst) ==> Premul(c))
            && Between(LanesOf(src), LanesOf(c), LanesOf(dst))
  {
    FastInterp32Lanes(src, dst, scale);
    FastInterp64Lanes(src, dst, scale);
    hide FastInterp32, FastInterp64, LanesOf, LerpByte;
    var s, d := LanesOf(src), LanesOf(dst);
    LanesOfWord(LerpLanes(s, d, scale));
    LerpBetween(s.x, d.x, scale);
    LerpBetween(s.y, d.y, scale);
    LerpBetween(s.z, d.z, scale);
    LerpBetween(s.a, d.a, scale);
    if Premul(src) && Premul(dst) {
      LerpPremul(s, d, scale);
    }
  }

  predicate InRange(p: nat, m: nat, q: nat) { p <= m <= q || q <= m <= p }

  predicate Between(s: Lanes, m: Lanes, d: Lanes) {
    InRange(s.x, m.x, d.x) && InRange(s.y, m.y, d.y) && InRange(s.z, m.z, d.z) && InRange(s.a, m.a, d.a)
  }

  lemma LerpBetween(s: nat, d: nat, scale: nat)
    requires s < 0x100 && d < 0x100 && scale <= 256
    ensures InRange(s, LerpByte(s, d, scale), d)
    ensures scale == 0 ==> LerpByte(s, d, scale) == d
    ensures scale == 256 ==> LerpByte(s, d, scale) == s
    ensures scale == 1 ==> LerpByte(s, d, scale) == if s < d then d - 1 else d
    ensures scale == 255 ==> LerpByte(s, d, scale) == if d < s then s - 1 else s
  {
    LerpRange(s, d, scale, if s < d then s else d, if s < d then d else s);
  }

  lemma LerpEnds(s: Lanes, d: Lanes, scale: nat)
    requires s.Bytes() && d.Bytes() && scale <= 256
    ensures scale == 0 ==> LerpLanes(s, d, scale) == d
    ensures scale == 256 ==> LerpLanes(s, d, scale) == s
    ensures scale == 1 ==> (LerpLanes(s, d, scale) == d <==> d.x <= s.x && d.y <= s.y && d.z <= s.z && d.a <= s.a)
    ensures scale == 255 ==> (LerpLanes(s, d, scale) == s <==> s.x <= d.x && s.y <= d.y && s.z <= d.z && s.a <= d.a)
  {
    LerpBetween(s.x, d.x, scale);
    LerpBetween(s.y, d.y, scale);
    LerpBetween(s.z, d.z, scale);
    LerpBetween(s.a, d.a, scale);
    hide LerpByte;
  }

  /** Weights 0 and 255 of the fast interpolation return exactly dst and exactly src. */
  lemma FastInterpEnds(src: Word, dst: Word, pointerBytes: nat)
    ensures FastInterp(src, dst, 0, pointerBytes) == dst
    ensures FastInterp(src, dst, 255, pointerBytes) == src
  {
    FastInterp32Lanes(src, dst, 0);
    FastInterp64Lanes(src, dst, 0);
    FastInterp32Lanes(src, dst, 256);
    FastInterp64Lanes(src, dst, 256);
    WordOfLanes(src);
    WordOfLanes(dst);
    hide FastInterp32, FastInterp64, LanesOf, LerpLanes;
    LerpEnds(LanesOf(src), LanesOf(dst), 0);
    LerpEnds(LanesOf(src), LanesOf(dst), 256);
  }

  /** The documented ends of `SkFourByteInterp`: weight 255 returns src, but weight 0 returns dst only
      when no byte of dst exceeds the same byte of src. */
  lemma FourByteInterpEnds(src: Word, dst: Word, layout: Layout)
    requires Premul(src) && Premul(dst)
    ensures FourByteInterp(src, dst, 255, layout) == src
    ensures var s, d := LanesOf(src), LanesOf(dst);
            FourByteInterp(src, dst, 0, layout) == dst
            <==> d.x <= s.x && d.y <= s.y && d.z <= s.z && d.a <= s.a
  {
    FourByteInterpLanes(src, dst, 1, layout);
    FourByteInterpLanes(src, dst, 256, layout);
    WordOfLanes(src);
    WordOfLanes(dst);
    var s, d := LanesOf(src), LanesOf(dst);
    LanesOfWord(LerpLanes(s, d, 1));
    hide FourByteInterp256, LanesOf, LerpLanes;
    LerpEnds(s, d, 1);
    LerpEnds(s, d, 256);
  }

  lemma FourByteInterp256Lanes(src: Word, dst: Word, scale: nat, layout: Layout)
    requires scale <= 256 && Premul(src) && Premul(dst)
    ensures FourByteInterp256(src, dst, scale, layout) < W32
    ensures LanesOf(FourByteInterp256(src, dst, scale, layout)) == LerpLanes(LanesOf(src), LanesOf(dst), scale)
  {
    hide FourByteInterp256, LanesOf, LerpLanes, LerpByte;
    FourByteInterpLanes(src, dst, scale, layout);
    LanesOfWord(LerpLanes(LanesOf(src), LanesOf(dst), scale));
  }

  /** `SkFourByteInterp256` has the same documented ends, but scales up to 256: 0 returns dst, and 0xFF
      returns src only when no byte of src exceeds the same byte of dst. */
  lemma FourByteInterp256Ends(src: Word, dst: Word, layout: Layout)
    requires Premul(src) && Premul(dst)
    ensures FourByteInterp256(src, dst, 0, layout) == dst
    ensures var s, d := LanesOf(src), LanesOf(dst);
            FourByteInterp256(src, dst, 0xFF, layout) == src
            <==> s.x <= d.x && s.y <= d.y && s.z <= d.z && s.a <= d.a
  {
    WordOfLanes(src);
    WordOfLanes(dst);
    hide FourByteInterp256, LanesOf, LerpLanes, LerpByte;
    var s, d := LanesOf(src), LanesOf(dst);
    FourByteInterp256Lanes(src, dst, 0, layout);
    FourByteInterp256Lanes(src, dst, 0xFF, layout);
    LerpEnds(s, d, 0);
    LerpEnds(s, d, 0xFF);
    LanesInjective(FourByteInterp256(src, dst, 0, layout), dst);
    if LerpLanes(s, d, 0xFF) == s {
      LanesInjective(FourByteInterp256(src, dst, 0xFF, layout), src);
    }
  }

  /** Both documentations fail between transparent and opaque black: weight 0 from the first over the
      second, and scale 0xFF from the second over the first. */
  lemma FourByteInterpCounterExample(layout: Layout)
    ensures var black := Lanes(0, 0, 0, 255).Word();
            && Premul(0) && black < W32 && Premul(black)
            && FourByteInterp(0, black, 0, layout) != black
            && FourByteInterp256(black, 0, 0xFF, layout) != black
  {
    BlackAndClear();
    hide FourByteInterp, FourByteInterp256, LanesOf, Lanes.Word;
    var black := Lanes(0, 0, 0, 255).Word();
    FourByteInterpEnds(0, black, layout);
    FourByteInterp256Ends(black, 0, layout);
  }

  lemma BlackAndClear()
    ensures Lanes(0, 0, 0, 255).Word() < W32 && LanesOf(0) == Lanes(0, 0, 0, 0)
    ensures LanesOf(Lanes(0, 0, 0, 255).Word()) == Lanes(0, 0, 0, 255)
  {
    LanesOfWord(Lanes(0, 0, 0, 255));
  }

  /** How far r lies from the exact mean of s and d with weight / 255 for s, in units of 1/65280. */
  function MeanError(r: nat, s: nat, d: nat, weight: nat): int
    requires weight <= 255
  {
    65280 * r - 256 * (s * weight + d * (255 - weight))
  }

  /** The error of one byte comes from truncation, and from the scale standing for weight / 255. */
  lemma LerpMeanError(s: nat, d: nat, scale: nat, weight: nat)
    requires s < 0x100 && d < 0x100 && scale <= 256 && weight <= 255
    ensures var drift := (s - d) * (255 * scale - 256 * weight);
            drift - 65025 <= MeanError(LerpByte(s, d, scale), s, d, weight) <= drift
  {
    var r := LerpByte(s, d, scale);
    assert 256 * r <= LerpSum(s, d, scale) <= 256 * r + 255;
    var sScale, dScale, sWeight, dWeight := s * scale, d * scale, s * weight, d * weight;
    assert LerpSum(s, d, scale) == sScale + 256 * d - dScale;
    hide LerpSum, LerpByte;
    assert s * weight + d * (255 - weight) == sWeight + 255 * d - dWeight;
    assert (s - d) * (255 * scale - 256 * weight) == 255 * sScale - 256 * sWeight - 255 * dScale + 256 * dWeight;
  }

  lemma DriftBound(s: int, d: int, off: int, bound: int)
    requires 0 <= s < 0x100 && 0 <= d < 0x100 && -bound <= off <= bound
    ensures -255 * bound <= (s - d) * off <= 255 * bound
  {
    var a, b := 255 + d - s, 255 + s - d;
    Product(a, bound + off);
    Product(a, bound - off);
    Product(b, bound - off);
    Product(b, bound + off);
    assert a * (bound + off) + b * (bound - off) == 510 * bound - 2 * ((s - d) * off);
    assert a * (bound - off) + b * (bound + off) == 510 * bound + 2 * ((s - d) * off);
  }

  /** One byte of the fast form is less than 3/2 below and 1/2 above the exact mean. */
  lemma FastByteAccuracy(s: nat, d: nat, weight: nat)
    requires s < 0x100 && d < 0x100 && weight <= 255
    ensures -97920 < MeanError(LerpByte(s, d, weight + weight / 0x80), s, d, weight) < 32640
  {
    var fast := weight + weight / 0x80;
    LerpMeanError(s, d, fast, weight);
    var off := 255 * fast - 256 * weight;
    assert -127 <= off <= 127;
    hide MeanError, LerpByte;
    DriftBound(s, d, off, 127);
  }

  /** One byte of the slow form is less than 2 below and 1 above the exact mean. */
  lemma SlowByteAccuracy(s: nat, d: nat, weight: nat)
    requires s < 0x100 && d < 0x100 && weight <= 255
    ensures -130560 < MeanError(LerpByte(s, d, weight + 1), s, d, weight) < 65280
  {
    LerpMeanError(s, d, weight + 1, weight);
    var off := 255 * (weight + 1) - 256 * weight;
    assert 0 <= off <= 255;
    hide MeanError, LerpByte;
    DriftBound(s, d, off, 255);
  }

  predicate LanesWithin(m: Lanes, s: Lanes, d: Lanes, weight: nat, lo: int, hi: int)
    requires weight <= 255
  {
    && lo < MeanError(m.x, s.x, d.x, weight) < hi && lo < MeanError(m.y, s.y, d.y, weight) < hi
    && lo < MeanError(m.z, s.z, d.z, weight) < hi && lo < MeanError(m.a, s.a, d.a, weight) < hi
  }

  lemma FastLanesAccuracy(s: Lanes, d: Lanes, weight: nat)
    requires s.Bytes() && d.Bytes() && weight <= 255
    ensures LanesWithin(LerpLanes(s, d, weight + weight / 0x80), s, d, weight, -97920, 32640)
  {
    FastByteAccuracy(s.x, d.x, weight);
    FastByteAccuracy(s.y, d.y, weight);
    FastByteAccuracy(s.z, d.z, weight);
    FastByteAccuracy(s.a, d.a, weight);
    hide MeanError, LerpByte;
  }

  lemma SlowLanesAccuracy(s: Lanes, d: Lanes, weight: nat)
    requires s.Bytes() && d.Bytes() && weight <= 255
    ensures LanesWithin(LerpLanes(s, d, weight + 1), s, d, weight, -130560, 65280)
  {
    SlowByteAccuracy(s.x, d.x, weight);
    SlowByteAccuracy(s.y, d.y, weight);
    SlowByteAccuracy(s.z, d.z, weight);
    SlowByteAccuracy(s.a, d.a, weight);
    hide MeanError, LerpByte;
  }

  lemma FastInterp256Lanes(src: Word, dst: Word, scale: nat, pointerBytes: nat)
    requires scale <= 256
    ensures LanesOf(src).Bytes() && LanesOf(dst).Bytes()
    ensures FastInterp256(src, dst, scale, pointerBytes) == LerpLanes(LanesOf(src), LanesOf(dst), scale).Word()
  {
    hide FastInterp32, FastInterp64, LanesOf, LerpLanes;
    FastInterp32Lanes(src, dst, scale);
    FastInterp64Lanes(src, dst, scale);
  }

  lemma FastInterpBytes(src: Word, dst: Word, weight: nat, pointerBytes: nat)
    requires weight <= 255
    ensures LanesOf(src).Bytes() && LanesOf(dst).Bytes()
    ensures FastInterp(src, dst, weight, pointerBytes) < W32
    ensures LanesOf(FastInterp(src, dst, weight, pointerBytes))
            == LerpLanes(LanesOf(src), LanesOf(dst), weight + weight / 0x80)
  {
    hide FastInterp256, LanesOf, LerpLanes;
    FastInterp256Lanes(src, dst, weight + weight / 0x80, pointerBytes);
    LanesOfWord(LerpLanes(LanesOf(src), LanesOf(dst), weight + weight / 0x80));
  }

  lemma FourByteInterpBytes(src: Word, dst: Word, weight: nat, layout: Layout)
    requires weight <= 255 && Premul(src) && Premul(dst)
    ensures FourByteInterp(src, dst, weight, layout) < W32
    ensures LanesOf(FourByteInterp(src, dst, weight, layout)) == LerpLanes(LanesOf(src), LanesOf(dst), weight + 1)
  {
    hide FourByteInterp256, LanesOf, LerpLanes, LerpByte;
    FourByteInterp256Lanes(src, dst, weight + 1, layout);
  }

  /** The documented "touch more accurate": every byte of the fast form is less than 3/2 below and 1/2
      above the exact mean, at every weight and pointer size. */
  lemma FastInterpAccuracy(src: Word, dst: Word, weight: nat, pointerBytes: nat)
    requires weight <= 255
    ensures FastInterp(src, dst, weight, pointerBytes) < W32
    ensures LanesWithin(LanesOf(FastInterp(src, dst, weight, pointerBytes)), LanesOf(src), LanesOf(dst), weight,
                        -97920, 32640)
  {
    FastInterpBytes(src, dst, weight, pointerBytes);
    hide FastInterp, LanesOf, LerpLanes, LanesWithin;
    FastLanesAccuracy(LanesOf(src), LanesOf(dst), weight);
  }

  /** The slow form only keeps every byte less than 2 below and 1 above the exact mean. */
  lemma FourByteInterpAccuracy(src: Word, dst: Word, weight: nat, layout: Layout)
    requires weight <= 255 && Premul(src) && Premul(dst)
    ensures FourByteInterp(src, dst, weight, layout) < W32
    ensures LanesWithin(LanesOf(FourByteInterp(src, dst, weight, layout)), LanesOf(src), LanesOf(dst), weight,
                        -130560, 65280)
  {
    FourByteInterpBytes(src, dst, weight, layout);
    hide FourByteInterp, LanesOf, LerpLanes, LanesWithin;
    SlowLanesAccuracy(LanesOf(src), LanesOf(dst), weight);
  }

  /** The slow form does leave the narrower range, on both sides: alphas 240 over 0, and 0 over 239. */
  lemma FourByteInterpLessAccurate(src: Word, dst: Word, layout: Layout)
    requires Premul(src) && Premul(dst)
    ensures LanesOf(src).a == 240 && LanesOf(dst).a == 0
            ==> MeanError(LanesOf(FourByteInterp(src, dst, 15, layout)).a, 240, 0, 15) == 57600
    ensures LanesOf(src).a == 0 && LanesOf(dst).a == 239
            ==> MeanError(LanesOf(FourByteInterp(src, dst, 14, layout)).a, 0, 239, 14) == -122624
  {
    SlowBytesOff();
    FourByteInterpBytes(src, dst, 15, layout);
    FourByteInterpBytes(src, dst, 14, layout);
    hide FourByteInterp, LanesOf, LerpByte, MeanError;
  }

  lemma SlowBytesOff()
    ensures MeanError(LerpByte(240, 0, 16), 240, 0, 15) == 57600
    ensures MeanError(LerpByte(0, 239, 15), 0, 239, 14) == -122624
  {
  }

  // ----- Blending with coverage

  /** `SkAlphaMulInv256` is 256 minus the truncated quotient value * alpha256 / 255, on its whole
      documented domain. */
  lemma AlphaMulInv256Exact(value: nat, alpha256: nat)
    requires value <= 255 && alpha256 <= 256
    ensures AlphaMulInv256(value, alpha256) == 256 - value * alpha256 / 255
    ensures 0 <= value * alpha256 / 255 <= 256
    ensures alpha256 == 256 ==> AlphaMulInv256(value, alpha256) == if value == 255 then 0 else 256 - value
    ensures alpha256 == 1 ==> AlphaMulInv256(value, alpha256) == if value == 255 then 255 else 256
  {
    ProductBound(value, alpha256, 256);
    ProductBound(255 - value, alpha256, 256);
    assert value * alpha256 == 255 * alpha256 - (255 - value) * alpha256;
    InverseQuotient(value * alpha256);
  }

  lemma InverseQuotient(n: nat)
    requires n <= 255 * 256
    ensures (0xFFFF - n + (0xFFFF - n) / 0x100) / 0x100 == 256 - n / 255
  {
    var k, r := n / 255, n % 255;
    assert 0xFFFF - n == 0x100 * (255 - k) + (255 + k - r);
    if 255 + k - r < 0x100 {
      assert (0xFFFF - n) / 0x100 == 255 - k;
      assert 0xFFFF - n + (255 - k) == 0x100 * (256 - k) + (254 - r);
    } else {
      assert (0xFFFF - n) / 0x100 == 256 - k;
      assert 0xFFFF - n + (256 - k) == 0x100 * (256 - k) + (255 - r);
    }
  }

  /** One blended byte before the final shift. */
  function BlendSum(c: nat, d: nat, alpha: nat, cover: nat): (r: nat)
    requires c <= alpha <= 255 && d <= 255 && cover <= 256
    ensures r < 0xFFFF
  {
    BlendBound(c, d, alpha, cover);
    c * cover + d * (256 - alpha * cover / 255)
  }

  /** The two scaled bytes never add up to more than 16 bits, and full bytes stay full. */
  lemma BlendBound(c: nat, d: nat, alpha: nat, cover: nat)
    requires c <= alpha <= 255 && d <= 255 && cover <= 256
    ensures 0 <= alpha * cover / 255 <= 256
    ensures 0 <= c * cover + d * (256 - alpha * cover / 255) < 0xFFFF
    ensures c == alpha && d == 255 ==> c * cover + d * (256 - alpha * cover / 255) >= 0xFF00
  {
    AlphaMulInv256Exact(alpha, cover);
    var inverse := 256 - alpha * cover / 255;
    MulOrder(c, alpha, cover);
    MulOrder(d, 255, inverse);
    Product(c, cover);
    Product(d, inverse);
  }

  function BlendByte256(c: nat, d: nat, alpha: nat, cover: nat): (r: nat)
    requires c <= alpha <= 255 && d <= 255 && cover <= 256
    ensures r < 0x100
  {
    BlendSum(c, d, alpha, cover) / 0x100
  }

  /** The two spread sums of a blended pixel. */
  function BlendRB(s: Lanes, d: Lanes, cover: nat): (r: nat)
    requires s.Premul() && d.Bytes() && cover <= 256
  {
    BlendSum(s.x, d.x, s.a, cover) + 0x1_0000 * BlendSum(s.z, d.z, s.a, cover)
  }

  function BlendAG(s: Lanes, d: Lanes, cover: nat): (r: nat)
    requires s.Premul() && d.Bytes() && cover <= 256
  {
    BlendSum(s.y, d.y, s.a, cover) + 0x1_0000 * BlendSum(s.a, d.a, s.a, cover)
  }

  function BlendLanes(s: Lanes, d: Lanes, cover: nat): (m: Lanes)
    requires s.Premul() && d.Bytes() && cover <= 256
    ensures m.Bytes()
  {
    Lanes(BlendByte256(s.x, d.x, s.a, cover), BlendByte256(s.y, d.y, s.a, cover),
          BlendByte256(s.z, d.z, s.a, cover), BlendByte256(s.a, d.a, s.a, cover))
  }

  lemma SpreadBlend(u: nat, u': nat, p: nat, q: nat, p': nat, q': nat, alpha: nat, cover: nat)
    requires p <= alpha <= 255 && q <= alpha && p' < 0x100 && q' < 0x100 && cover <= 256
    requires u == p + 0x1_0000 * q && u' == p' + 0x1_0000 * q'
    ensures var t := AlphaMulInv256(alpha, cover);
            u * cover + u' * t == BlendSum(p, p', alpha, cover) + 0x1_0000 * BlendSum(q, q', alpha, cover)
  {
    AlphaMulInv256Exact(alpha, cover);
    hide AlphaMulInv256;
    var t := AlphaMulInv256(alpha, cover);
    assert u * cover == p * cover + 0x1_0000 * (q * cover);
    assert u' * t == p' * t + 0x1_0000 * (q' * t);
  }

  /** Both registers of `SkBlendARGB32` hold their two sums without wrapping. */
  lemma BlendRegisters(src: Word, dst: Word, cover: nat)
    requires cover <= 256 && Premul(src)
    ensures var s, d, mask := LanesOf(src), LanesOf(dst), 0x00FF_00FF;
            var t := AlphaMulInv256(s.a, cover);
            && d.Bytes()
            && WeightedSum32(And(src, mask), And(dst, mask), cover, t)
               == BlendRB(s, d, cover)
            && WeightedSum32(And(Shr(src, 8), mask), And(Shr(dst, 8), mask), cover, t)
               == BlendAG(s, d, cover)
  {
    SplitPixel(src);
    SplitPixel(dst);
    hide And, Shr, LanesOf, BlendSum, AlphaMulInv256, WeightedSum32;
    var s, d, mask := LanesOf(src), LanesOf(dst), 0x00FF_00FF;
    BlendRegister(And(src, mask), And(dst, mask), s.x, s.z, d.x, d.z, s.a, cover);
    BlendRegister(And(Shr(src, 8), mask), And(Shr(dst, 8), mask), s.y, s.a, d.y, d.a, s.a, cover);
  }

  lemma BlendRegister(u: nat, u': nat, p: nat, q: nat, p': nat, q': nat, alpha: nat, cover: nat)
    requires p <= alpha <= 255 && q <= alpha && p' < 0x100 && q' < 0x100 && cover <= 256
    requires u == p + 0x1_0000 * q && u' == p' + 0x1_0000 * q'
    ensures WeightedSum32(u, u', cover, AlphaMulInv256(alpha, cover))
         == BlendSum(p, p', alpha, cover) + 0x1_0000 * BlendSum(q, q', alpha, cover)
  {
    SpreadBlend(u, u', p, q, p', q', alpha, cover);
    hide AlphaMulInv256, BlendSum, WeightedSum32;
    NoWrap32(u, u', cover, AlphaMulInv256(alpha, cover));
  }

  /** `SkBlendARGB32` of a premultiplied source over any destination blends each byte on its own: no
      sum carries into the next byte. */
  lemma BlendARGB32Lanes(src: Word, dst: Word, aa: nat, layout: Layout)
    requires aa <= 255 && Premul(src)
    ensures LanesOf(dst).Bytes()
    ensures BlendARGB32(src, dst, aa, layout) == BlendLanes(LanesOf(src), LanesOf(dst), aa + 1).Word()
    ensures BlendARGB32(src, dst, aa, layout) < W32
    ensures LanesOf(BlendARGB32(src, dst, aa, layout)) == BlendLanes(LanesOf(src), LanesOf(dst), aa + 1)
  {
    WordOfLanes(dst);
    BlendARGB32Word(src, dst, aa, layout);
    hide BlendARGB32, LanesOf, BlendLanes;
    LanesOfWord(BlendLanes(LanesOf(src), LanesOf(dst), aa + 1));
  }

  lemma BlendARGB32Word(src: Word, dst: Word, aa: nat, layout: Layout)
    requires aa <= 255 && Premul(src) && LanesOf(dst).Bytes()
    ensures BlendARGB32(src, dst, aa, layout) == BlendLanes(LanesOf(src), LanesOf(dst), aa + 1).Word()
  {
    hide BlendARGB32, LanesOf, BlendRB, BlendAG, BlendLanes, Or, And, Shr, WeightedSum32, AlphaMulInv256;
    var s, d := LanesOf(src), LanesOf(dst);
    BlendRegisters(src, dst, aa + 1);
    BlendBody(src, dst, aa, layout, BlendRB(s, d, aa + 1), BlendAG(s, d, aa + 1));
    MergeBlend(s, d, aa + 1);
  }

  /** The body of `SkBlendARGB32` in terms of its two registers. */
  lemma BlendBody(src: Word, dst: Word, aa: nat, layout: Layout, rb: nat, ag: nat)
    requires aa <= 255 && LanesOf(src).a <= 255
    requires var t := AlphaMulInv256(LanesOf(src).a, aa + 1);
             && WeightedSum32(And(src, 0x00FF_00FF), And(dst, 0x00FF_00FF), aa + 1, t) == rb
             && WeightedSum32(And(Shr(src, 8), 0x00FF_00FF), And(Shr(dst, 8), 0x00FF_00FF), aa + 1, t) == ag
    ensures BlendARGB32(src, dst, aa, layout) == Or(And(Shr(rb, 8), 0x00FF_00FF), And(ag, 0xFF00_FF00))
  {
    GetPackedLanes(src, layout);
    hide And, Or, Shr, LanesOf, AlphaMulInv256, WeightedSum32, GetPackedA;
  }

  lemma MergeBlend(s: Lanes, d: Lanes, cover: nat)
    requires s.Premul() && d.Bytes() && cover <= 256
    ensures Or(And(Shr(BlendRB(s, d, cover), 8), 0x00FF_00FF), And(BlendAG(s, d, cover), 0xFF00_FF00))
         == BlendLanes(s, d, cover).Word()
  {
    hide And, Or, Shr, BlendSum;
    PairSum(BlendSum(s.x, d.x, s.a, cover), BlendSum(s.z, d.z, s.a, cover), BlendRB(s, d, cover));
    PairSum(BlendSum(s.y, d.y, s.a, cover), BlendSum(s.a, d.a, s.a, cover), BlendAG(s, d, cover));
    JoinPairs(BlendLanes(s, d, cover));
  }

  lemma BlendMonotone(c: nat, c': nat, d: nat, d': nat, alpha: nat, cover: nat)
    requires c <= c' <= alpha <= 255 && d <= d' <= 255 && cover <= 256
    ensures BlendByte256(c, d, alpha, cover) <= BlendByte256(c', d', alpha, cover)
    ensures c == alpha && d == 255 ==> BlendByte256(c, d, alpha, cover) == 255
  {
    BlendBound(c, d, alpha, cover);
    MulOrder(c, c', cover);
    MulOrder(d, d', 256 - alpha * cover / 255);
  }

  lemma BlendFull(c: nat, d: nat, alpha: nat)
    requires c <= alpha <= 255 && d <= 255
    ensures BlendByte256(c, d, alpha, 256) == c + ScaleByte(d, 256 - alpha)
  {
    AlphaMulInv256Exact(alpha, 256);
    if alpha == 255 {
      BlendByte(c, alpha, d);
    }
  }

  lemma BlendNone(c: nat, d: nat, alpha: nat)
    requires c <= alpha <= 255 && d <= 255
    ensures BlendByte256(c, d, alpha, 1) == d <==> (alpha < 255 || d <= c)
  {
    var inverse := if alpha < 255 then 256 else 255;
    assert alpha * 1 / 255 == 256 - inverse;
    assert BlendSum(c, d, alpha, 1) == c + inverse * d;
    hide BlendSum;
  }

  /** Blending keeps pixels premultiplied and an opaque destination opaque, whatever the coverage. */
  lemma BlendARGB32Invariant(src: Word, dst: Word, aa: nat, layout: Layout)
    requires aa <= 255 && Premul(src)
    ensures BlendARGB32(src, dst, aa, layout) < W32
    ensures Premul(dst) ==> Premul(BlendARGB32(src, dst, aa, layout))
    ensures Opaque(dst) ==> Opaque(BlendARGB32(src, dst, aa, layout))
  {
    hide BlendARGB32, LanesOf, BlendByte256;
    BlendARGB32Lanes(src, dst, aa, layout);
    var s, d := LanesOf(src), LanesOf(dst);
    BlendMonotone(s.a, s.a, d.a, d.a, s.a, aa + 1);
    if Premul(dst) {
      BlendMonotone(s.x, s.a, d.x, d.a, s.a, aa + 1);
      BlendMonotone(s.y, s.a, d.y, d.a, s.a, aa + 1);
      BlendMonotone(s.z, s.a, d.z, d.a, s.a, aa + 1);
    }
  }

  lemma BlendLanesFull(s: Lanes, d: Lanes)
    requires s.Premul() && d.Bytes()
    ensures BlendLanes(s, d, 256) == OverLanes(s, d)
  {
    hide BlendByte256, ScaleByte;
    BlendFull(s.x, d.x, s.a);
    BlendFull(s.y, d.y, s.a);
    BlendFull(s.z, d.z, s.a);
    BlendFull(s.a, d.a, s.a);
  }

  /** At full coverage blending is `SkPMSrcOver`. */
  lemma FullCoverageIsSrcOver(src: Word, dst: Word, layout: Layout)
    requires Premul(src)
    ensures BlendARGB32(src, dst, 255, layout) == SrcOver(src, dst, layout)
  {
    hide BlendARGB32, SrcOver, LanesOf, BlendLanes, OverLanes;
    BlendARGB32Lanes(src, dst, 255, layout);
    SrcOverLanes(src, dst, layout);
    BlendLanesFull(LanesOf(src), LanesOf(dst));
    LanesInjective(BlendARGB32(src, dst, 255, layout), SrcOver(src, dst, layout));
  }

  /** At zero coverage blending leaves dst unchanged exactly when src is not opaque, or no byte of dst
      exceeds the same byte of src. */
  lemma ZeroCoverageIff(src: Word, dst: Word, layout: Layout)
    requires Premul(src)
    ensures var s, d := LanesOf(src), LanesOf(dst);
            BlendARGB32(src, dst, 0, layout) == dst
            <==> s.a < 255 || (d.x <= s.x && d.y <= s.y && d.z <= s.z)
  {
    hide BlendARGB32, LanesOf, BlendLanes, Lanes.Word;
    BlendARGB32Lanes(src, dst, 0, layout);
    BlendLanesNone(LanesOf(src), LanesOf(dst));
    if BlendLanes(LanesOf(src), LanesOf(dst), 1) == LanesOf(dst) {
      LanesInjective(BlendARGB32(src, dst, 0, layout), dst);
    }
  }

  lemma BlendLanesNone(s: Lanes, d: Lanes)
    requires s.Premul() && d.Bytes()
    ensures BlendLanes(s, d, 1) == d <==> s.a < 255 || (d.x <= s.x && d.y <= s.y && d.z <= s.z)
  {
    hide BlendByte256;
    BlendNone(s.x, d.x, s.a);
    BlendNone(s.y, d.y, s.a);
    BlendNone(s.z, d.z, s.a);
    BlendNone(s.a, d.a, s.a);
  }

  // ----- How far blending is from exact coverage

  /** The blended byte is within one of compositing c over d with coverage cover / 256 and no rounding:
      c * k + d * (1 - alpha / 255 * k), for k = cover / 256. */
  predicate NearExact(r: nat, c: nat, d: nat, alpha: nat, cover: nat) {
    var k := cover as real / 256.0;
    -1.0 < r as real - (c as real * k + d as real * (1.0 - alpha as real / 255.0 * k)) < 1.0
  }

  lemma BlendByteNearExact(c: nat, d: nat, alpha: nat, cover: nat)
    requires c <= alpha <= 255 && d <= 255 && cover <= 256
    ensures NearExact(BlendByte256(c, d, alpha, cover), c, d, alpha, cover)
  {
    var r, cover' := BlendByte256(c, d, alpha, cover), alpha * cover;
    var rest := cover' % 255;
    BlendWithRemainder(c, d, alpha, cover);
    hide BlendByte256;
    Product(d, rest);
    Product(255 - d, rest);
    assert (255 - d) * rest == 255 * rest - d * rest;
    var exact := 255 * (c * cover) + d * (65280 - cover');
    assert -65280 < 65280 * r - exact < 65280;
    ExactCoverage(r, c, d, alpha, cover, exact);
  }

  /** The truncated remainders, made explicit. */
  lemma BlendWithRemainder(c: nat, d: nat, alpha: nat, cover: nat)
    requires c <= alpha <= 255 && d <= 255 && cover <= 256
    ensures var exact := 255 * (c * cover) + d * (65280 - alpha * cover);
            var r := BlendByte256(c, d, alpha, cover);
            65280 * r <= exact + d * (alpha * cover % 255) <= 65280 * r + 65025
  {
    BlendBound(c, d, alpha, cover);
    var q, rest := alpha * cover / 255, alpha * cover % 255;
    assert alpha * cover == 255 * q + rest;
    assert d * (65280 - alpha * cover) == 255 * (d * (256 - q)) - d * rest;
  }

  lemma ExactCoverage(r: nat, c: nat, d: nat, alpha: nat, cover: nat, exact: int)
    requires exact == 255 * (c * cover) + d * (65280 - alpha * cover)
    requires -65280 < 65280 * r - exact < 65280
    ensures NearExact(r, c, d, alpha, cover)
  {
    CastProduct(c, cover);
    CastProduct(alpha, cover);
    CastProduct(d, 65280 - alpha * cover);
    ScaledCoverage(r as real, c as real, d as real, alpha as real, cover as real, exact as real);
  }

  lemma CastProduct(a: int, b: int)
    ensures (a * b) as real == a as real * b as real
  {
  }

  lemma ScaledCoverage(r: real, c: real, d: real, alpha: real, cover: real, exact: real)
    requires exact == 255.0 * (c * cover) + d * (65280.0 - alpha * cover)
    requires -65280.0 < 65280.0 * r - exact < 65280.0
    ensures -1.0 < r - (c * (cover / 256.0) + d * (1.0 - alpha / 255.0 * (cover / 256.0))) < 1.0
  {
    var part := alpha / 255.0 * (cover / 256.0);
    assert 65280.0 * part == alpha * cover;
    assert 65280.0 * (c * (cover / 256.0)) == 255.0 * (c * cover);
    assert 65280.0 * (d * (1.0 - part)) == d * (65280.0 - 65280.0 * part);
  }

  predicate LanesNearExact(m: Lanes, s: Lanes, d: Lanes, cover: nat) {
    && NearExact(m.x, s.x, d.x, s.a, cover) && NearExact(m.y, s.y, d.y, s.a, cover)
    && NearExact(m.z, s.z, d.z, s.a, cover) && NearExact(m.a, s.a, d.a, s.a, cover)
  }

  lemma BlendLanesNearExact(s: Lanes, d: Lanes, aa: nat)
    requires s.Premul() && d.Bytes() && aa <= 255
    ensures LanesNearExact(BlendLanes(s, d, aa + 1), s, d, aa + 1)
  {
    hide BlendByte256, NearExact;
    BlendByteNearExact(s.x, d.x, s.a, aa + 1);
    BlendByteNearExact(s.y, d.y, s.a, aa + 1);
    BlendByteNearExact(s.z, d.z, s.a, aa + 1);
    BlendByteNearExact(s.a, d.a, s.a, aa + 1);
  }

  /** Every byte of a blended pixel is within one of exact compositing with partial coverage. */
  lemma BlendARGB32NearExact(src: Word, dst: Word, aa: nat, layout: Layout)
    requires aa <= 255 && Premul(src)
    ensures BlendARGB32(src, dst, aa, layout) < W32
    ensures LanesNearExact(LanesOf(BlendARGB32(src, dst, aa, layout)), LanesOf(src), LanesOf(dst), aa + 1)
  {
    BlendARGB32Lanes(src, dst, aa, layout);
    hide BlendARGB32, LanesOf, BlendLanes, LanesNearExact;
    BlendLanesNearExact(LanesOf(src), LanesOf(dst), aa);
  }
}
