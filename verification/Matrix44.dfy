/** 4x4 matrices stored by columns (SkM44.h) and their relation to 3x3 matrices. */
module Matrix44 {
  import opened Basics
  import opened MatrixCache

  type Mat44 = m: seq<real> | |m| == 16 witness seq(16, _ => 0.0)

  type Row4 = v: seq<real> | |v| == 4 witness [0.0, 0.0, 0.0, 0.0]

  /** `rc`: column-major storage. */
  function RC(m: Mat44, r: nat, c: nat): real
    requires r < 4 && c < 4
  {
    m[c * 4 + r]
  }

  /** The sixteen-argument constructor, whose parameters come in row-major order. */
  function RowMajor(v: Mat44): Mat44 {
    [v[0], v[4], v[8], v[12], v[1], v[5], v[9], v[13], v[2], v[6], v[10], v[14], v[3], v[7], v[11], v[15]]
  }

  /** `ColMajor`: passes its values to that constructor transposed. */
  function ColMajor(v: Mat44): Mat44 {
    RowMajor([v[0], v[4], v[8], v[12], v[1], v[5], v[9], v[13], v[2], v[6], v[10], v[14], v[3], v[7], v[11], v[15]])
  }

  lemma MajorOrders(v: Mat44, r: nat, c: nat)
    requires r < 4 && c < 4
    ensures RC(RowMajor(v), r, c) == v[r * 4 + c]
    ensures RC(ColMajor(v), r, c) == v[c * 4 + r]
  {
    assert r in [0, 1, 2, 3] && c in [0, 1, 2, 3];
  }

  /** `asM33`: drops the third row and column. */
  function AsM33(m: Mat44): Mat {
    [m[0], m[4], m[12], m[1], m[5], m[13], m[3], m[7], m[15]]
  }

  /** `SkM44(const SkMatrix&)`: the third row and column are those of the identity. */
  function Embed(s: Mat): Mat44 {
    RowMajor([s[0], s[1], 0.0, s[2],
              s[3], s[4], 0.0, s[5],
              0.0, 0.0, 1.0, 0.0,
              s[6], s[7], 0.0, s[8]])
  }

  /** `SkMatrix::rc`: row-major storage. */
  function RC33(m: Mat, r: nat, c: nat): real
    requires r < 3 && c < 3
  {
    m[r * 3 + c]
  }

  /** The documented product of 3x3 matrices, entry by entry. */
  function Entry33(a: Mat, b: Mat, r: nat, c: nat): real
    requires r < 3 && c < 3
  {
    RC33(a, r, 0) * RC33(b, 0, c) + RC33(a, r, 1) * RC33(b, 1, c) + RC33(a, r, 2) * RC33(b, 2, c)
  }

  function Concat33(a: Mat, b: Mat): Mat {
    seq(9, k requires 0 <= k < 9 => Entry33(a, b, k / 3, k % 3))
  }

  function Entry44(a: Mat44, b: Mat44, r: nat, c: nat): real
    requires r < 4 && c < 4
  {
    RC(a, r, 0) * RC(b, 0, c) + RC(a, r, 1) * RC(b, 1, c) + RC(a, r, 2) * RC(b, 2, c) + RC(a, r, 3) * RC(b, 3, c)
  }

  function Concat44(a: Mat44, b: Mat44): Mat44 {
    seq(16, k requires 0 <= k < 16 => Entry44(a, b, k % 4, k / 4))
  }

  /** The documented meaning of the product: the right factor maps first. */
  lemma ConcatMaps(a: Mat, b: Mat, p: Point)
    requires !HasPersp(a) && !HasPersp(b)
    ensures MapAffine(Concat33(a, b), p) == MapAffine(a, MapAffine(b, p))
    ensures !HasPersp(Concat33(a, b))
  {
    forall k | 0 <= k < 9
      ensures Concat33(a, b)[k] == Entry33(a, b, k / 3, k % 3)
    {
    }
    hide Concat33;
    var c := Concat33(a, b);
    assert c[0] == Entry33(a, b, 0, 0) && c[1] == Entry33(a, b, 0, 1) && c[2] == Entry33(a, b, 0, 2);
    assert c[3] == Entry33(a, b, 1, 0) && c[4] == Entry33(a, b, 1, 1) && c[5] == Entry33(a, b, 1, 2);
    assert c[6] == Entry33(a, b, 2, 0) && c[7] == Entry33(a, b, 2, 1) && c[8] == Entry33(a, b, 2, 2);
    RowMaps(a[0], a[1], b[0], b[1], b[2], b[3], b[4], b[5], p);
    RowMaps(a[3], a[4], b[0], b[1], b[2], b[3], b[4], b[5], p);
  }

  /** One row of a product: coefficients of the composed mapping. */
  lemma RowMaps(k: real, l: real, b0: real, b1: real, b2: real, b3: real, b4: real, b5: real, p: Point)
    ensures k * (b0 * p.x + b1 * p.y + b2) + l * (b3 * p.x + b4 * p.y + b5)
         == (k * b0 + l * b3) * p.x + (k * b1 + l * b4) * p.y + (k * b2 + l * b5)
  {
  }

  /** The row or column of a 4x4 matrix that a row or column of its 3x3 part comes from. */
  function Lift(i: nat): nat
    requires i < 3
  {
    if i == 2 then 3 else i
  }

  lemma AsM33Entry(m: Mat44, r: nat, c: nat)
    requires r < 3 && c < 3
    ensures RC33(AsM33(m), r, c) == RC(m, Lift(r), Lift(c))
  {
    assert r in [0, 1, 2] && c in [0, 1, 2];
  }

  lemma Concat33Entry(p: Mat, q: Mat, r: nat, c: nat)
    requires r < 3 && c < 3
    ensures RC33(Concat33(p, q), r, c) == Entry33(p, q, r, c)
  {
    assert (3 * r + c) / 3 == r && (3 * r + c) % 3 == c;
    hide Entry33;
  }

  lemma ConcatEntries(a: Mat44, b: Mat44, p: Mat, q: Mat, r: nat, c: nat)
    requires r < 3 && c < 3
    ensures RC33(AsM33(Concat44(a, b)), r, c) == Entry44(a, b, Lift(r), Lift(c))
    ensures RC33(Concat33(p, q), r, c) == Entry33(p, q, r, c)
  {
    AsM33Entry(Concat44(a, b), r, c);
    var k := Lift(c) * 4 + Lift(r);
    assert k % 4 == Lift(r) && k / 4 == Lift(c);
    hide Entry44, Entry33;
    Concat33Entry(p, q, r, c);
  }

  /** The term of a 4x4 product that passes through the dropped third row and column. */
  function Dropped(a: Mat44, b: Mat44, r: nat, c: nat): real
    requires r < 3 && c < 3
  {
    RC(a, Lift(r), 2) * RC(b, 2, Lift(c))
  }

  /** What dropping the third row and column loses from one entry of a product. */
  lemma DroppedTerm(a: Mat44, b: Mat44, r: nat, c: nat)
    requires r < 3 && c < 3
    ensures RC33(AsM33(Concat44(a, b)), r, c) == RC33(Concat33(AsM33(a), AsM33(b)), r, c) + Dropped(a, b, r, c)
  {
    ConcatEntries(a, b, AsM33(a), AsM33(b), r, c);
    hide Concat44, Concat33;
    SplitEntry(a, b, r, c);
    hide Entry44, Entry33, Dropped, AsM33;
  }

  lemma SplitEntry(a: Mat44, b: Mat44, r: nat, c: nat)
    requires r < 3 && c < 3
    ensures Entry44(a, b, Lift(r), Lift(c)) == Entry33(AsM33(a), AsM33(b), r, c) + Dropped(a, b, r, c)
  {
    AsM33Entry(a, r, 0);
    AsM33Entry(a, r, 1);
    AsM33Entry(a, r, 2);
    AsM33Entry(b, 0, c);
    AsM33Entry(b, 1, c);
    AsM33Entry(b, 2, c);
    hide AsM33, RC, RC33;
  }

  /** `asM33` of a product is the product of the `asM33`s exactly when the dropped column of the left
      factor and the dropped row of the right factor never meet. */
  lemma AsM33OfProductIff(a: Mat44, b: Mat44)
    ensures AsM33(Concat44(a, b)) == Concat33(AsM33(a), AsM33(b))
       <==> forall r, c :: 0 <= r < 3 && 0 <= c < 3 ==> Dropped(a, b, r, c) == 0.0
  {
    var p, q := AsM33(Concat44(a, b)), Concat33(AsM33(a), AsM33(b));
    hide AsM33, Concat44, Concat33, RC33, Dropped;
    forall r, c | 0 <= r < 3 && 0 <= c < 3
      ensures RC33(p, r, c) == RC33(q, r, c) <==> Dropped(a, b, r, c) == 0.0
    {
      DroppedTerm(a, b, r, c);
    }
    EntriesDecide(p, q);
  }

  lemma EntriesDecide(p: Mat, q: Mat)
    ensures p == q <==> forall r, c :: 0 <= r < 3 && 0 <= c < 3 ==> RC33(p, r, c) == RC33(q, r, c)
  {
    if forall r, c :: 0 <= r < 3 && 0 <= c < 3 ==> RC33(p, r, c) == RC33(q, r, c) {
      forall k | 0 <= k < 9
        ensures p[k] == q[k]
      {
        assert RC33(p, k / 3, k % 3) == RC33(q, k / 3, k % 3);
      }
    }
  }

  /** 3x3 matrices sit inside 4x4 matrices: nothing is lost, and products are preserved. */
  lemma EmbedPreservesProducts(a: Mat, b: Mat)
    ensures AsM33(Embed(a)) == a
    ensures Concat44(Embed(a), Embed(b)) == Embed(Concat33(a, b))
    ensures AsM33(Concat44(Embed(a), Embed(b))) == Concat33(a, b)
  {
    EmbedRoundTrip(a);
    EmbedRoundTrip(Concat33(a, b));
    var p, q := Concat44(Embed(a), Embed(b)), Embed(Concat33(a, b));
    hide AsM33, Concat44, Concat33, Embed;
    forall k | 0 <= k < 16
      ensures p[k] == q[k]
    {
      EmbeddedEntry(a, b, k % 4, k / 4);
      assert k / 4 * 4 + k % 4 == k;
    }
  }

  /** An embedded matrix seen through rc. */
  lemma EmbedEntry(s: Mat, r: nat, c: nat)
    requires r < 4 && c < 4
    ensures RC(Embed(s), r, c) == if r == 2 || c == 2 then (if r == c then 1.0 else 0.0) else RC33(s, Drop(r), Drop(c))
  {
    assert r in [0, 1, 2, 3] && c in [0, 1, 2, 3];
  }

  /** The row or column of the 3x3 part that a row or column other than the third becomes. */
  function Drop(i: nat): nat
    requires i < 4 && i != 2
  {
    if i == 3 then 2 else i
  }

  lemma EmbeddedEntry(a: Mat, b: Mat, r: nat, c: nat)
    requires r < 4 && c < 4
    ensures RC(Concat44(Embed(a), Embed(b)), r, c) == RC(Embed(Concat33(a, b)), r, c)
  {
    Concat44Entry(Embed(a), Embed(b), r, c);
    EmbedEntry(Concat33(a, b), r, c);
    if r != 2 && c != 2 {
      Concat33Entry(a, b, Drop(r), Drop(c));
    }
    hide Concat44, Concat33, Embed, RC, RC33;
    EmbeddedProduct(a, b, r, c);
  }

  lemma Concat44Entry(a: Mat44, b: Mat44, r: nat, c: nat)
    requires r < 4 && c < 4
    ensures RC(Concat44(a, b), r, c) == Entry44(a, b, r, c)
  {
    assert (c * 4 + r) % 4 == r && (c * 4 + r) / 4 == c;
    hide Entry44;
  }

  lemma EmbeddedProduct(a: Mat, b: Mat, r: nat, c: nat)
    requires r < 4 && c < 4
    ensures Entry44(Embed(a), Embed(b), r, c)
         == if r == 2 || c == 2 then (if r == c then 1.0 else 0.0) else Entry33(a, b, Drop(r), Drop(c))
  {
    EmbedEntry(a, r, 0);
    EmbedEntry(a, r, 1);
    EmbedEntry(a, r, 2);
    EmbedEntry(a, r, 3);
    EmbedEntry(b, 0, c);
    EmbedEntry(b, 1, c);
    EmbedEntry(b, 2, c);
    EmbedEntry(b, 3, c);
    hide Embed, RC, RC33;
  }

  lemma EmbedRoundTrip(a: Mat)
    ensures AsM33(Embed(a)) == a
    ensures forall i :: 0 <= i < 3 ==> RC(Embed(a), Lift(i), 2) == 0.0 && RC(Embed(a), 2, Lift(i)) == 0.0
  {
    assert AsM33(Embed(a)) == a by {
      forall k | 0 <= k < 9
        ensures AsM33(Embed(a))[k] == a[k]
      {
      }
    }
  }

  /** `SkM44`: the writers, in place. */
  class SkM44 {
    var fMat: array<real>

    ghost predicate Shape()
      reads this
    {
      fMat.Length == 16
    }

    function Now(): Mat44
      requires Shape()
      reads this, fMat
    {
      fMat[..]
    }

    constructor (v: Mat44)
      ensures Shape() && fresh(fMat) && Now() == RowMajor(v)
    {
      fMat := new real[16] [v[0], v[4], v[8], v[12], v[1], v[5], v[9], v[13],
                            v[2], v[6], v[10], v[14], v[3], v[7], v[11], v[15]];
    }

    /** `Rows`: the rows land in the columns of the store. */
    constructor Rows(r0: Row4, r1: Row4, r2: Row4, r3: Row4)
      ensures Shape() && fresh(fMat)
      ensures Now() == RowMajor(r0 + r1 + r2 + r3)
    {
      fMat := new real[16](_ => 0.0);
      new;
      SetRow(0, r0);
      SetRow(1, r1);
      SetRow(2, r2);
      SetRow(3, r3);
      assert fMat[..] == RowMajor(r0 + r1 + r2 + r3);
    }

    /** `Cols`. */
    constructor Cols(c0: Row4, c1: Row4, c2: Row4, c3: Row4)
      ensures Shape() && fresh(fMat)
      ensures Now() == c0 + c1 + c2 + c3 && Now() == ColMajor(c0 + c1 + c2 + c3)
    {
      fMat := new real[16](_ => 0.0);
      new;
      SetCol(0, c0);
      SetCol(1, c1);
      SetCol(2, c2);
      SetCol(3, c3);
      assert fMat[..] == c0 + c1 + c2 + c3;
    }

    method SetRC(r: nat, c: nat, value: real)
      requires Shape() && r < 4 && c < 4
      modifies fMat
      ensures forall i, j :: 0 <= i < 4 && 0 <= j < 4
                             ==> RC(Now(), i, j) == if i == r && j == c then value else RC(old(Now()), i, j)
    {
      fMat[c * 4 + r] := value;
    }

    /** `setRow`: four entries, four apart. */
    method SetRow(i: nat, v: Row4)
      requires Shape() && i < 4
      modifies fMat
      ensures Now() == old(Now())[i := v[0]][i + 4 := v[1]][i + 8 := v[2]][i + 12 := v[3]]
      ensures forall r, c :: 0 <= r < 4 && 0 <= c < 4
                             ==> RC(Now(), r, c) == if r == i then v[c] else RC(old(Now()), r, c)
    {
      fMat[i] := v[0];
      fMat[i + 4] := v[1];
      fMat[i + 8] := v[2];
      fMat[i + 12] := v[3];
    }

    /** `setCol`: four consecutive entries. */
    method SetCol(i: nat, v: Row4)
      requires Shape() && i < 4
      modifies fMat
      ensures Now() == old(Now())[..4 * i] + v + old(Now())[4 * i + 4..]
      ensures forall r, c :: 0 <= r < 4 && 0 <= c < 4
                             ==> RC(Now(), r, c) == if c == i then v[r] else RC(old(Now()), r, c)
    {
      fMat[4 * i], fMat[4 * i + 1], fMat[4 * i + 2], fMat[4 * i + 3] := v[0], v[1], v[2], v[3];
      assert fMat[..] == old(fMat[..4 * i]) + v + old(fMat[4 * i + 4..]);
    }

    /** `row`. */
    method Row(i: nat) returns (v: Row4)
      requires Shape() && i < 4
      ensures forall c :: 0 <= c < 4 ==> v[c] == RC(Now(), i, c)
    {
      v := [fMat[i], fMat[i + 4], fMat[i + 8], fMat[i + 12]];
    }

    /** `col`. */
    method Col(i: nat) returns (v: Row4)
      requires Shape() && i < 4
      ensures forall r :: 0 <= r < 4 ==> v[r] == RC(Now(), r, i)
    {
      v := [fMat[i * 4], fMat[i * 4 + 1], fMat[i * 4 + 2], fMat[i * 4 + 3]];
    }
  }
}
