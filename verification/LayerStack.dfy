/** Stacks of premultiplied layers drawn with SkPMSrcOver (SkColorPriv.h), compared with exact
    compositing over the reals. */
module LayerStack {
  import opened Words
  import opened FixedPoint
  import opened PMColor

  /** Draws the layers in order, the first one directly on the base. */
  function Stack(base: Word, layers: seq<Word>, layout: Layout): Word {
    if |layers| == 0 then base
    else SrcOver(layers[|layers| - 1], Stack(base, layers[..|layers| - 1], layout), layout)
  }

  predicate AllPremul(layers: seq<Word>) {
    forall i :: 0 <= i < |layers| ==> Premul(layers[i])
  }

  /** One byte of a pixel; channel 3 is alpha. */
  function Channel(c: Word, k: nat): nat
    requires k < 4
  {
    var l := LanesOf(c);
    if k == 0 then l.x else if k == 1 then l.y else if k == 2 then l.z else l.a
  }

  /** The part of a destination value that shows through a source of the given alpha. */
  function Shown(d: real, alpha: nat): real
    requires alpha <= 255
  {
    d * ((255 - alpha) as real / 255.0)
  }

  /** Compositing one channel without rounding: source + destination * (255 - alpha) / 255. */
  function ExactOver(top: Word, e: real, k: nat): real
    requires k < 4
  {
    WordOfLanes(top);
    Channel(top, k) as real + Shown(e, LanesOf(top).a)
  }

  /** One channel of the whole stack composited without rounding. */
  function Exact(base: Word, layers: seq<Word>, k: nat): real
    requires k < 4
  {
    if |layers| == 0 then Channel(base, k) as real
    else ExactOver(layers[|layers| - 1], Exact(base, layers[..|layers| - 1], k), k)
  }

  /** Every intermediate pixel of a stack is premultiplied, and opaque from an opaque base on. */
  lemma {:induction false} StackInvariant(base: Word, layers: seq<Word>, layout: Layout)
    requires AllPremul(layers)
    ensures Premul(base) ==> Premul(Stack(base, layers, layout))
    ensures Opaque(base) ==> Opaque(Stack(base, layers, layout))
  {
    if |layers| > 0 {
      var below := layers[..|layers| - 1];
      StackInvariant(base, below, layout);
      hide SrcOver, Premul, Opaque;
      SrcOverInvariant(layers[|layers| - 1], Stack(base, below, layout), layout);
    }
  }

  lemma StackPush(base: Word, below: seq<Word>, top: Word, layout: Layout)
    ensures Stack(base, below + [top], layout) == SrcOver(top, Stack(base, below, layout), layout)
    ensures Stack(base, [], layout) == base
  {
    hide SrcOver;
    assert (below + [top])[..|below|] == below;
  }

  /** Only the layers from the last opaque one upwards are visible. */
  lemma {:induction false} OpaqueLayerHides(base: Word, other: Word, layers: seq<Word>, i: nat, layout: Layout)
    requires AllPremul(layers) && i < |layers| && Opaque(layers[i])
    ensures Stack(base, layers, layout) == Stack(other, layers[i..], layout)
  {
    var below, top := layers[..|layers| - 1], layers[|layers| - 1];
    hide SrcOver, Premul, Opaque, Stack;
    assert layers == below + [top] && layers[i..] == below[i..] + [top];
    StackPush(base, below, top, layout);
    StackPush(other, below[i..], top, layout);
    if i < |below| {
      OpaqueLayerHides(base, other, below, i, layout);
    } else {
      SrcOverExtremes(top, Stack(base, below, layout), layout);
      SrcOverExtremes(top, Stack(other, below[i..], layout), layout);
    }
  }

  /** One rounded step differs from the exact step by less than one. */
  lemma StepError(d: nat, alpha: nat)
    requires d <= 255 && alpha <= 255
    ensures -1.0 < ScaleByte(d, 256 - alpha) as real - Shown(d as real, alpha) < 1.0
  {
    var f, e := ScaleByte(d, 256 - alpha), d * (255 - alpha);
    ProductBound(d, alpha, 255);
    assert d * (256 - alpha) == 256 * d - d * alpha && e == 255 * d - d * alpha;
    assert 0x100 * f <= d * (256 - alpha) < 0x100 * f + 0x100;
    assert -255 < 255 * f - e < 255;
    hide ScaleByte;
    assert e as real == d as real * (255 - alpha) as real;
    assert Shown(d as real, alpha) == e as real / 255.0;
  }

  /** Showing through never amplifies an error already present. */
  lemma AttenuatedError(d: real, e: real, alpha: nat, err: real)
    requires alpha <= 255 && -err <= d - e <= err
    ensures -err <= Shown(d, alpha) - Shown(e, alpha) <= err
  {
    var w := (255 - alpha) as real / 255.0;
    NonNegative(err - (d - e), w);
    NonNegative(err + (d - e), w);
    NonNegative(err, 1.0 - w);
  }

  lemma NonNegative(a: real, b: real)
    requires a >= 0.0 && b >= 0.0
    ensures a * b >= 0.0
  {
  }

  /** After n layers every channel is within n of the exact composite, strictly when n > 0. */
  lemma {:induction false} StackError(base: Word, layers: seq<Word>, k: nat, layout: Layout)
    requires AllPremul(layers) && k < 4
    ensures var gap := Channel(Stack(base, layers, layout), k) as real - Exact(base, layers, k);
            if |layers| == 0 then gap == 0.0 else -(|layers| as real) < gap < |layers| as real
  {
    hide SrcOver, Channel, ExactOver;
    if |layers| > 0 {
      var n := |layers| - 1;
      var below, top := layers[..n], layers[n];
      StackError(base, below, k, layout);
      ErrorGrowsByOne(top, Stack(base, below, layout), Exact(base, below, k), k, layout, n as real);
      assert |layers| as real == n as real + 1.0;
    }
  }

  lemma ErrorGrowsByOne(top: Word, dst: Word, e: real, k: nat, layout: Layout, err: real)
    requires Premul(top) && k < 4 && -err <= Channel(dst, k) as real - e <= err
    ensures -(err + 1.0) < Channel(SrcOver(top, dst, layout), k) as real - ExactOver(top, e, k) < err + 1.0
  {
    ChannelStep(top, dst, k, layout);
    hide SrcOver, Premul, Channel, LanesOf, ScaleByte, Shown;
    var alpha, d := LanesOf(top).a, Channel(dst, k);
    StepError(d, alpha);
    AttenuatedError(d as real, e, alpha, err);
    SumOfErrors(Channel(top, k), ScaleByte(d, 256 - alpha), Shown(d as real, alpha), Shown(e, alpha), err);
  }

  lemma SumOfErrors(c: nat, f: nat, rounded: real, exact: real, err: real)
    requires -1.0 < f as real - rounded < 1.0 && -err <= rounded - exact <= err
    ensures -(err + 1.0) < (c + f) as real - (c as real + exact) < err + 1.0
  {
  }

  lemma ChannelStep(top: Word, dst: Word, k: nat, layout: Layout)
    requires Premul(top) && k < 4
    ensures LanesOf(top).a <= 255 && Channel(dst, k) <= 255
    ensures Channel(SrcOver(top, dst, layout), k)
         == Channel(top, k) + ScaleByte(Channel(dst, k), 256 - LanesOf(top).a)
  {
    SrcOverLanes(top, dst, layout);
    hide SrcOver, ScaleByte, LanesOf;
  }
}
