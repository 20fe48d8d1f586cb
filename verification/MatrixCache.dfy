/** The lazily computed type mask of a 3x3 matrix (SkMatrix.h).  Scalars are real numbers. */
module MatrixCache {
  import opened Basics

  /** Nine entries in row-major order. */
  type Mat = m: seq<real> | |m| == 9 witness [1.0, 0.0, 0.0, 0.0, 1.0, 0.0, 0.0, 0.0, 1.0]

  type Index = i: nat | i < 9

  type Mask = bv32

  const IDENTITY: Mat := [1.0, 0.0, 0.0, 0.0, 1.0, 0.0, 0.0, 0.0, 1.0]

  const TRANSLATE: Mask := 0x01
  const SCALE: Mask := 0x02
  const AFFINE: Mask := 0x04
  const PERSPECTIVE: Mask := 0x08
  const ORABLE: Mask := 0x0F
  const RECT_STAYS_RECT: Mask := 0x10
  const ALL_MASKS: Mask := 0x1F
  const ONLY_PERSPECTIVE_VALID: Mask := 0x40
  const UNKNOWN: Mask := 0x80

  // ----- Matrix forms named by the documentation

  predicate HasPersp(m: Mat) { m[6] != 0.0 || m[7] != 0.0 || m[8] != 1.0 }

  predicate HasTranslation(m: Mat) { m[2] != 0.0 || m[5] != 0.0 }

  predicate ScaleTranslateForm(m: Mat) { m[1] == 0.0 && m[3] == 0.0 && !HasPersp(m) }

  predicate TranslateForm(m: Mat) { ScaleTranslateForm(m) && m[0] == 1.0 && m[4] == 1.0 }

  /** The documented form behind `rectStaysRect`: axis-aligned with non-zero factors. */
  predicate RectForm(m: Mat) {
    !HasPersp(m) && ((m[1] == 0.0 && m[3] == 0.0 && m[0] != 0.0 && m[4] != 0.0)
                     || (m[0] == 0.0 && m[4] == 0.0 && m[1] != 0.0 && m[3] != 0.0))
  }

  /** Scale and translate with a zero factor: every rectangle collapses. */
  predicate ZeroScaleForm(m: Mat) { ScaleTranslateForm(m) && (m[0] == 0.0 || m[4] == 0.0) }

  /** The perspective bit is exact. */
  predicate PerspExact(m: Mat, mask: Mask) { mask & PERSPECTIVE != 0 <==> HasPersp(m) }

  /** A complete mask: conservative, so every clear bit implies its form.  A set rect bit implies the
      documented form, or what `setScaleTranslate` writes for a zero factor. */
  predicate Complete(m: Mat, mask: Mask) {
    && mask & ALL_MASKS == mask
    && PerspExact(m, mask)
    && (mask & AFFINE == 0 ==> m[1] == 0.0 && m[3] == 0.0)
    && (mask & SCALE == 0 ==> m[0] == 1.0 && m[4] == 1.0)
    && (mask & TRANSLATE == 0 ==> !HasTranslation(m))
    && (mask & RECT_STAYS_RECT != 0 ==> RectForm(m) || ZeroScaleForm(m))
  }

  /** What the cache may hold: a complete mask; nothing; or nothing but an exact perspective bit. */
  predicate CacheOk(m: Mat, mask: Mask) {
    if mask & UNKNOWN == 0 then Complete(m, mask)
    else mask & ONLY_PERSPECTIVE_VALID != 0 ==> PerspExact(m, mask)
  }

  /** The documentation of `getType` adds that a set perspective bit comes with all other public bits. */
  predicate PerspSetsAll(mask: Mask) { mask & PERSPECTIVE != 0 ==> mask & ORABLE == ORABLE }

  // ----- The two computations the header only declares

  /** The documentation of `rectStaysRect` knows the non-zero form only. */
  predicate RectExact(m: Mat, mask: Mask) { mask & RECT_STAYS_RECT != 0 ==> RectForm(m) }

  /** No false positives: without perspective every public bit is set only for a reason, and the rect bit is
      there for the documented form. */
  predicate NoFalsePositives(m: Mat, mask: Mask) {
    && (mask & PERSPECTIVE != 0 ==> HasPersp(m))
    && (!HasPersp(m) ==> && (mask & TRANSLATE != 0 ==> HasTranslation(m))
                         && (mask & AFFINE != 0 ==> m[1] != 0.0 || m[3] != 0.0)
                         && (mask & AFFINE == 0 && mask & SCALE != 0 ==> m[0] != 1.0 || m[4] != 1.0))
    && (RectForm(m) ==> mask & RECT_STAYS_RECT != 0)
  }

  /** What the header says of `computeTypeMask`. */
  ghost predicate TypeMaskContract(compute: Mat -> Mask) {
    forall m: Mat :: Complete(m, compute(m)) && PerspSetsAll(compute(m)) && RectExact(m, compute(m))
  }

  /** What the header says of `computePerspectiveTypeMask`: a legal mask whose perspective bit counts. */
  ghost predicate PerspMaskContract(compute: Mat -> Mask) {
    forall m: Mat :: CacheOk(m, compute(m))
                     && (if compute(m) & UNKNOWN == 0 then RectExact(m, compute(m))
                         else compute(m) & ONLY_PERSPECTIVE_VALID != 0)
  }

  /** Any implementation that meets the two contracts. */
  datatype Classifier = Classifier(typeMask: Mat -> Mask, perspMask: Mat -> Mask)
  {
    ghost predicate Ok() { TypeMaskContract(typeMask) && PerspMaskContract(perspMask) }

    /** The header allows false positives; this implementation has none. */
    ghost predicate Exact() {
      && (forall m: Mat :: NoFalsePositives(m, typeMask(m)))
      && (forall m: Mat :: perspMask(m) & UNKNOWN == 0 ==> NoFalsePositives(m, perspMask(m)))
    }
  }

  /** One mask that meets the documentation, so the contracts can be met. */
  function DocumentedMask(m: Mat): Mask {
    if HasPersp(m) then ORABLE
    else
      (if HasTranslation(m) then TRANSLATE else 0)
      | (if m[1] != 0.0 || m[3] != 0.0 then AFFINE | SCALE else if m[0] != 1.0 || m[4] != 1.0 then SCALE else 0)
      | (if RectForm(m) then RECT_STAYS_RECT else 0)
  }

  lemma ClassifierExists()
    ensures Classifier((m: Mat) => DocumentedMask(m), (m: Mat) => DocumentedMask(m)).Ok()
    ensures Classifier((m: Mat) => DocumentedMask(m), (m: Mat) => DocumentedMask(m)).Exact()
  {
    forall m: Mat
      ensures Complete(m, DocumentedMask(m)) && PerspSetsAll(DocumentedMask(m)) && DocumentedMask(m) & UNKNOWN == 0
      ensures RectExact(m, DocumentedMask(m))
    {
    }
    forall m: Mat
      ensures NoFalsePositives(m, DocumentedMask(m))
    {
    }
    hide Complete, DocumentedMask, PerspSetsAll, RectExact, NoFalsePositives;
  }

  // ----- The operations on matrix and mask

  datatype State = State(mat: Mat, mask: Mask)

  const START := State(IDENTITY, RECT_STAYS_RECT)

  datatype Op =
    | Set(index: Index, value: real)
    | ElementRef(index: Index)
    | RefWrite(index: Index, value: real)
    | Dirty
    | SetAll(entries: Mat)
    | SetScaleTranslate(sx: real, sy: real, tx: real, ty: real)
    | EditTranslation(tx: real, ty: real)
    | GetType
    | GetPerspective

  function ScaleTranslateMask(sx: real, sy: real, tx: real, ty: real): Mask {
    (if sx != 1.0 || sy != 1.0 then SCALE else 0)
    | (if tx != 0.0 || ty != 0.0 then TRANSLATE else 0)
    | RECT_STAYS_RECT
  }

  /** `updateTranslateMask`. */
  function UpdatedTranslateMask(m: Mat, mask: Mask): Mask {
    if HasTranslation(m) then mask | TRANSLATE else mask & !TRANSLATE
  }

  /** `getType` and `rectStaysRect` refill an unknown mask. */
  function TypeFilled(st: State, c: Classifier): State {
    if st.mask & UNKNOWN != 0 then st.(mask := c.typeMask(st.mat)) else st
  }

  /** `getPerspectiveTypeMaskOnly` refills only when not even the perspective bit is known. */
  function PerspFilled(st: State, c: Classifier): State {
    if st.mask & UNKNOWN != 0 && st.mask & ONLY_PERSPECTIVE_VALID == 0 then st.(mask := c.perspMask(st.mat)) else st
  }

  function Step(st: State, op: Op, c: Classifier): State {
    match op
    case Set(i, v) => State(st.mat[i := v], UNKNOWN)
    case ElementRef(i) => st.(mask := UNKNOWN)
    case RefWrite(i, v) => st.(mat := st.mat[i := v])
    case Dirty => st.(mask := UNKNOWN)
    case SetAll(entries) => State(entries, UNKNOWN)
    case SetScaleTranslate(sx, sy, tx, ty) =>
      State([sx, 0.0, tx, 0.0, sy, ty, 0.0, 0.0, 1.0], ScaleTranslateMask(sx, sy, tx, ty))
    case EditTranslation(tx, ty) =>
      var m: Mat := st.mat[2 := tx][5 := ty];
      State(m, UpdatedTranslateMask(m, st.mask))
    case GetType => TypeFilled(st, c)
    case GetPerspective => PerspFilled(st, c)
  }

  function Run(ops: seq<Op>, c: Classifier): State {
    if |ops| == 0 then START else Step(Run(ops[..|ops| - 1], c), ops[|ops| - 1], c)
  }

  /** Whether a write through a kept element reference is still waiting for `dirtyMatrixTypeCache`: the
      last write found a mask that already said something. */
  function Stale(ops: seq<Op>, c: Classifier): bool {
    if |ops| == 0 then false
    else
      var before := ops[..|ops| - 1];
      match ops[|ops| - 1]
      case RefWrite(_, _) => Stale(before, c) || !SaysNothing(Run(before, c).mask)
      case EditTranslation(_, _) => Stale(before, c)
      case GetType => Stale(before, c)
      case GetPerspective => Stale(before, c)
      case _ => false
  }

  predicate SaysNothing(mask: Mask) { mask & UNKNOWN != 0 && mask & ONLY_PERSPECTIVE_VALID == 0 }

  /** Queries come only when no reference write is waiting. */
  predicate Disciplined(ops: seq<Op>, c: Classifier) {
    forall i :: 0 <= i < |ops| && (ops[i].GetType? || ops[i].GetPerspective?) ==> !Stale(ops[..i], c)
  }

  lemma ScaleTranslateComplete(sx: real, sy: real, tx: real, ty: real)
    ensures Complete([sx, 0.0, tx, 0.0, sy, ty, 0.0, 0.0, 1.0], ScaleTranslateMask(sx, sy, tx, ty))
    ensures ScaleTranslateMask(sx, sy, tx, ty) & UNKNOWN == 0
  {
  }

  lemma WrittenBits(s: Mask, t: Mask)
    requires (s == 0 || s == SCALE) && (t == 0 || t == TRANSLATE)
    ensures var written := s | t | RECT_STAYS_RECT;
            && written & TRANSLATE == t && written & SCALE == s
            && written & AFFINE == 0 && written & PERSPECTIVE == 0
  {
  }

  /** The mask `setScaleTranslate` computes on the spot is exact, not just conservative. */
  lemma ScaleTranslateMaskExact(sx: real, sy: real, tx: real, ty: real)
    ensures var written := ScaleTranslateMask(sx, sy, tx, ty);
            && (written & TRANSLATE != 0 <==> tx != 0.0 || ty != 0.0)
            && (written & SCALE != 0 <==> sx != 1.0 || sy != 1.0)
            && written & AFFINE == 0 && written & PERSPECTIVE == 0
  {
    WrittenBits(if sx != 1.0 || sy != 1.0 then SCALE else 0, if tx != 0.0 || ty != 0.0 then TRANSLATE else 0);
  }

  /** Setting or clearing the translate bit leaves every other bit alone. */
  lemma OtherBits(mask: Mask, b: Mask)
    requires b & TRANSLATE == 0
    ensures (mask | TRANSLATE) & b == mask & b && (mask & !TRANSLATE) & b == mask & b
  {
  }

  lemma TranslateBit(mask: Mask)
    ensures (mask | TRANSLATE) & TRANSLATE != 0
    ensures mask & ALL_MASKS == mask
            ==> && (mask | TRANSLATE) & ALL_MASKS == mask | TRANSLATE
                && (mask & !TRANSLATE) & ALL_MASKS == mask & !TRANSLATE
  {
  }

  /** The translate bit is exact. */
  predicate TranslateExact(m: Mat, mask: Mask) { mask & TRANSLATE != 0 <==> HasTranslation(m) }

  predicate SameOtherBits(mask: Mask, mask': Mask) { mask' & !TRANSLATE == mask & !TRANSLATE }

  lemma TranslateBitAlone(has: bool, mask: Mask, updated: Mask)
    requires updated == if has then mask | TRANSLATE else mask & !TRANSLATE
    ensures updated & TRANSLATE != 0 <==> has
    ensures SameOtherBits(mask, updated)
  {
  }

  /** `updateTranslateMask` makes the translate bit exact and leaves every other bit as it was. */
  lemma UpdatedMaskExact(m: Mat, mask: Mask)
    ensures TranslateExact(m, UpdatedTranslateMask(m, mask))
    ensures SameOtherBits(mask, UpdatedTranslateMask(m, mask))
  {
    hide HasTranslation, SameOtherBits;
    TranslateBitAlone(HasTranslation(m), mask, UpdatedTranslateMask(m, mask));
  }

  lemma EditTranslationOk(m: Mat, mask: Mask, tx: real, ty: real)
    requires CacheOk(m, mask)
    ensures CacheOk(m[2 := tx][5 := ty], UpdatedTranslateMask(m[2 := tx][5 := ty], mask))
  {
    OtherBits(mask, SCALE);
    OtherBits(mask, AFFINE);
    OtherBits(mask, PERSPECTIVE);
    OtherBits(mask, RECT_STAYS_RECT);
    OtherBits(mask, ONLY_PERSPECTIVE_VALID);
    OtherBits(mask, UNKNOWN);
    TranslateBit(mask);
    hide CacheOk;
    var m': Mat := m[2 := tx][5 := ty];
    SameBits(m, m', mask, UpdatedTranslateMask(m', mask));
  }

  lemma EditTranslationKeeps(m: Mat, mask: Mask, tx: real, ty: real)
    ensures CacheOk(m, mask) ==> CacheOk(m[2 := tx][5 := ty], UpdatedTranslateMask(m[2 := tx][5 := ty], mask))
  {
    hide CacheOk;
    if CacheOk(m, mask) {
      EditTranslationOk(m, mask, tx, ty);
    }
  }

  /** A mask that differs only in an exact translate bit, for a matrix that differs only in its
      translation. */
  lemma SameBits(m: Mat, m': Mat, mask: Mask, mask': Mask)
    requires CacheOk(m, mask) && m' == m[2 := m'[2]][5 := m'[5]]
    requires mask' & SCALE == mask & SCALE && mask' & AFFINE == mask & AFFINE
    requires mask' & PERSPECTIVE == mask & PERSPECTIVE && mask' & RECT_STAYS_RECT == mask & RECT_STAYS_RECT
    requires mask' & ONLY_PERSPECTIVE_VALID == mask & ONLY_PERSPECTIVE_VALID && mask' & UNKNOWN == mask & UNKNOWN
    requires mask & ALL_MASKS == mask ==> mask' & ALL_MASKS == mask'
    requires mask' & TRANSLATE == 0 ==> !HasTranslation(m')
    ensures CacheOk(m', mask')
  {
  }

  /** One operation keeps the cache right, unless it is a reference write over a mask that says something. */
  lemma StepKeepsCache(st: State, op: Op, c: Classifier)
    requires c.Ok() && CacheOk(st.mat, st.mask)
    requires op.RefWrite? ==> SaysNothing(st.mask)
    ensures CacheOk(Step(st, op, c).mat, Step(st, op, c).mask)
  {
    match op
    case SetScaleTranslate(sx, sy, tx, ty) => ScaleTranslateComplete(sx, sy, tx, ty);
    case EditTranslation(tx, ty) => EditTranslationOk(st.mat, st.mask, tx, ty);
    case _ =>
  }

  /** In every state reached by disciplined operations the cache is right, unless a reference write is
      still waiting for its `dirtyMatrixTypeCache`. */
  lemma {:induction false} RunKeepsCache(ops: seq<Op>, c: Classifier)
    requires c.Ok() && Disciplined(ops, c)
    ensures !Stale(ops, c) ==> CacheOk(Run(ops, c).mat, Run(ops, c).mask)
  {
    hide CacheOk, Step, SaysNothing, Classifier.Ok;
    if |ops| == 0 {
      StartOk();
    } else {
      var before, op := ops[..|ops| - 1], ops[|ops| - 1];
      assert forall i :: 0 <= i < |before| ==> before[..i] == ops[..i];
      RunKeepsCache(before, c);
      if !Stale(before, c) {
        if !Stale(ops, c) {
          StepKeepsCache(Run(before, c), op, c);
        }
      } else if !Stale(ops, c) {
        ResetOk(Run(before, c), op, c);
      }
    }
  }

  lemma StartOk()
    ensures CacheOk(START.mat, START.mask)
  {
  }

  /** The operations that set the mask afresh repair any state. */
  lemma ResetOk(st: State, op: Op, c: Classifier)
    requires op.Dirty? || op.ElementRef? || op.SetAll? || op.SetScaleTranslate? || op.Set?
    ensures CacheOk(Step(st, op, c).mat, Step(st, op, c).mask)
  {
    match op
    case SetScaleTranslate(sx, sy, tx, ty) => ScaleTranslateComplete(sx, sy, tx, ty);
    case _ =>
  }

  // ----- What the queries may conclude

  /** A complete mask proves the documented form for every clear bit, and perspective both ways. */
  lemma QueriesAreSound(m: Mat, mask: Mask)
    requires Complete(m, mask)
    ensures mask & ORABLE == 0 ==> m == IDENTITY
    ensures mask & ORABLE & !(SCALE | TRANSLATE) == 0 ==> ScaleTranslateForm(m)
    ensures mask & ORABLE & !TRANSLATE == 0 ==> TranslateForm(m)
    ensures mask & PERSPECTIVE != 0 <==> HasPersp(m)
    ensures mask & RECT_STAYS_RECT != 0 ==> RectForm(m) || ZeroScaleForm(m)
  {
    PublicBits(mask);
  }

  lemma PublicBits(mask: Mask)
    ensures mask & ORABLE == 0
       <==> mask & SCALE == 0 && mask & AFFINE == 0 && mask & PERSPECTIVE == 0 && mask & TRANSLATE == 0
    ensures mask & ORABLE & !(SCALE | TRANSLATE) == 0 <==> mask & AFFINE == 0 && mask & PERSPECTIVE == 0
    ensures mask & ORABLE & !TRANSLATE == 0 <==> mask & SCALE == 0 && mask & AFFINE == 0 && mask & PERSPECTIVE == 0
  {
  }

  /** With no false positives each answer is exactly the documented form. */
  lemma ExactAnswers(m: Mat, mask: Mask)
    requires Complete(m, mask) && NoFalsePositives(m, mask)
    ensures mask & ORABLE == 0 <==> m == IDENTITY
    ensures mask & ORABLE & !(SCALE | TRANSLATE) == 0 <==> ScaleTranslateForm(m)
    ensures mask & ORABLE & !TRANSLATE == 0 <==> TranslateForm(m)
  {
    QueriesAreSound(m, mask);
    PublicBits(mask);
  }

  lemma AnswersFor(m: Mat, mask: Mask)
    requires Complete(m, mask)
    ensures NoFalsePositives(m, mask) ==>
              && (mask & ORABLE == 0 <==> m == IDENTITY)
              && (mask & ORABLE & !(SCALE | TRANSLATE) == 0 <==> ScaleTranslateForm(m))
              && (mask & ORABLE & !TRANSLATE == 0 <==> TranslateForm(m))
  {
    hide NoFalsePositives, Complete;
    if NoFalsePositives(m, mask) {
      ExactAnswers(m, mask);
    }
  }

  lemma ScaleTranslateNoFalsePositives(sx: real, sy: real, tx: real, ty: real)
    ensures NoFalsePositives([sx, 0.0, tx, 0.0, sy, ty, 0.0, 0.0, 1.0], ScaleTranslateMask(sx, sy, tx, ty))
  {
    ScaleTranslateMaskExact(sx, sy, tx, ty);
    RectBitWritten(sx, sy, tx, ty);
    hide ScaleTranslateMask;
  }

  lemma RectBitWritten(sx: real, sy: real, tx: real, ty: real)
    ensures ScaleTranslateMask(sx, sy, tx, ty) & RECT_STAYS_RECT != 0
  {
  }

  lemma EditTranslationNoFalsePositives(m: Mat, mask: Mask, tx: real, ty: real)
    requires NoFalsePositives(m, mask)
    ensures var m' := m[2 := tx][5 := ty]; NoFalsePositives(m', UpdatedTranslateMask(m', mask))
  {
    var m': Mat := m[2 := tx][5 := ty];
    OtherBits(mask, SCALE);
    OtherBits(mask, AFFINE);
    OtherBits(mask, PERSPECTIVE);
    OtherBits(mask, RECT_STAYS_RECT);
    UpdatedMaskExact(m', mask);
    hide SameOtherBits;
    SameReasons(m, m', mask, UpdatedTranslateMask(m', mask));
  }

  lemma SameReasons(m: Mat, m': Mat, mask: Mask, mask': Mask)
    requires NoFalsePositives(m, mask) && m' == m[2 := m'[2]][5 := m'[5]] && TranslateExact(m', mask')
    requires mask' & SCALE == mask & SCALE && mask' & AFFINE == mask & AFFINE
    requires mask' & PERSPECTIVE == mask & PERSPECTIVE && mask' & RECT_STAYS_RECT == mask & RECT_STAYS_RECT
    ensures NoFalsePositives(m', mask')
  {
  }

  /** A known mask stays free of false positives. */
  predicate KnownExactly(st: State) { st.mask & UNKNOWN == 0 ==> NoFalsePositives(st.mat, st.mask) }

  lemma StepKnownExactly(st: State, op: Op, c: Classifier)
    requires c.Exact() && KnownExactly(st) && (op.RefWrite? ==> SaysNothing(st.mask))
    ensures KnownExactly(Step(st, op, c))
  {
    match op
    case SetScaleTranslate(sx, sy, tx, ty) => ScaleTranslateNoFalsePositives(sx, sy, tx, ty);
    case EditTranslation(tx, ty) =>
      OtherBits(st.mask, UNKNOWN);
      if st.mask & UNKNOWN == 0 {
        EditTranslationNoFalsePositives(st.mat, st.mask, tx, ty);
      }
    case _ => hide NoFalsePositives;
  }

  lemma FreshKnownExactly(st: State, op: Op, c: Classifier)
    requires op.Dirty? || op.ElementRef? || op.SetAll? || op.SetScaleTranslate? || op.Set?
    ensures KnownExactly(Step(st, op, c))
  {
    match op
    case SetScaleTranslate(sx, sy, tx, ty) => ScaleTranslateNoFalsePositives(sx, sy, tx, ty);
    case _ =>
  }

  lemma StartKnownExactly()
    ensures KnownExactly(START)
  {
  }

  lemma {:induction false} RunKnownExactly(ops: seq<Op>, c: Classifier)
    requires c.Exact() && Disciplined(ops, c) && !Stale(ops, c)
    ensures KnownExactly(Run(ops, c))
  {
    hide KnownExactly, Step, SaysNothing, Classifier.Exact;
    if |ops| == 0 {
      StartKnownExactly();
    } else {
      var before, op := ops[..|ops| - 1], ops[|ops| - 1];
      assert forall i :: 0 <= i < |before| ==> before[..i] == ops[..i];
      if op.RefWrite? || op.EditTranslation? || op.GetType? || op.GetPerspective? {
        RunKnownExactly(before, c);
        StepKnownExactly(Run(before, c), op, c);
      } else {
        FreshKnownExactly(Run(before, c), op, c);
      }
    }
  }

  /** With a `computeTypeMask` that has no false positives, the queries answer exactly: after any disciplined
      operations each of them is true if and only if the matrix has the documented form, and
      `isTriviallyIdentity` is, whenever the mask is known. */
  lemma QueriesAreExact(ops: seq<Op>, c: Classifier)
    requires c.Ok() && c.Exact() && Disciplined(ops, c) && !Stale(ops, c)
    ensures var st, m := Run(ops, c), Run(ops, c).mat;
            var mask := Step(st, GetType, c).mask;
            && (mask & ORABLE == 0 <==> m == IDENTITY)
            && (mask & ORABLE & !(SCALE | TRANSLATE) == 0 <==> ScaleTranslateForm(m))
            && (mask & ORABLE & !TRANSLATE == 0 <==> TranslateForm(m))
            && (st.mask & UNKNOWN == 0 ==> (st.mask & ORABLE == 0 <==> m == IDENTITY))
  {
    RunKeepsCache(ops, c);
    RunKnownExactly(ops, c);
    var st := Run(ops, c);
    FilledExactly(st, c);
    hide CacheOk, KnownExactly, Complete, NoFalsePositives, Classifier.Ok, Classifier.Exact;
    ExactAnswers(st.mat, Step(st, GetType, c).mask);
  }

  lemma FilledExactly(st: State, c: Classifier)
    requires c.Ok() && c.Exact() && CacheOk(st.mat, st.mask) && KnownExactly(st)
    ensures Complete(st.mat, Step(st, GetType, c).mask) && NoFalsePositives(st.mat, Step(st, GetType, c).mask)
  {
    hide Complete, NoFalsePositives, PerspSetsAll, RectExact;
  }

  /** Directly after `setScaleTranslate` they are exact whatever the classifiers do. */
  lemma ScaleTranslateAnswers(st: State, sx: real, sy: real, tx: real, ty: real, c: Classifier)
    ensures var mask := Step(Step(st, SetScaleTranslate(sx, sy, tx, ty), c), GetType, c).mask;
            && (mask & ORABLE == 0 <==> sx == sy == 1.0 && tx == ty == 0.0)
            && (mask & ORABLE & !TRANSLATE == 0 <==> sx == sy == 1.0)
            && mask & ORABLE & !(SCALE | TRANSLATE) == 0
  {
    ScaleTranslateComplete(sx, sy, tx, ty);
    ScaleTranslateNoFalsePositives(sx, sy, tx, ty);
    hide Complete, NoFalsePositives, ScaleTranslateMask;
    ExactAnswers([sx, 0.0, tx, 0.0, sy, ty, 0.0, 0.0, 1.0], ScaleTranslateMask(sx, sy, tx, ty));
  }

  /** The helper `updateTranslateMask` by itself: "when the perspective bit is set, all other bits are set"
      survives a translation edit exactly when the matrix has no perspective or the new translation is not
      zero. */
  lemma EditTranslationSetsAllIff(m: Mat, mask: Mask, tx: real, ty: real)
    requires Complete(m, mask) && PerspSetsAll(mask)
    ensures var m' := m[2 := tx][5 := ty];
            PerspSetsAll(UpdatedTranslateMask(m', mask)) <==> !HasPersp(m) || tx != 0.0 || ty != 0.0
  {
    OtherBits(mask, PERSPECTIVE);
    TranslateOfAll(mask);
  }

  /** A matrix with perspective whose translation is set to zero: its mask loses the translate bit. */
  lemma EditTranslationCounterExample()
    ensures var m, mask := [1.0, 0.0, 1.0, 0.0, 1.0, 0.0, 1.0, 0.0, 1.0], ORABLE;
            && Complete(m, mask) && PerspSetsAll(mask)
            && !PerspSetsAll(UpdatedTranslateMask(m[2 := 0.0][5 := 0.0], mask))
  {
    var m: Mat := [1.0, 0.0, 1.0, 0.0, 1.0, 0.0, 1.0, 0.0, 1.0];
    assert Complete(m, ORABLE) && PerspSetsAll(ORABLE) && HasPersp(m);
    hide Complete, PerspSetsAll, UpdatedTranslateMask;
    EditTranslationSetsAllIff(m, ORABLE, 0.0, 0.0);
  }

  lemma TranslateOfAll(mask: Mask)
    ensures mask & ORABLE == ORABLE ==> (mask | TRANSLATE) & ORABLE == ORABLE && (mask & !TRANSLATE) & ORABLE != ORABLE
  {
  }

  /** A reference kept across a query: the write after it goes unnoticed by the next query. */
  lemma KeptReferenceCounterExample(c: Classifier)
    requires c.Ok()
    ensures var ops := [ElementRef(6), GetPerspective, RefWrite(6, 1.0), GetPerspective];
            && HasPersp(Run(ops, c).mat)
            && Run(ops, c).mask & PERSPECTIVE == 0
            && !Disciplined(ops, c)
  {
    var o1, o2 := [ElementRef(6)], [ElementRef(6), GetPerspective];
    var o3 := o2 + [RefWrite(6, 1.0)];
    var o4 := o3 + [GetPerspective];
    assert o4 == [ElementRef(6), GetPerspective, RefWrite(6, 1.0), GetPerspective];
    assert o2[..1] == o1 && o3[..2] == o2 && o4[..3] == o3;
    assert Run(o1, c) == State(IDENTITY, UNKNOWN) by {
      assert o1[..0] == [];
    }
    var p := c.perspMask(IDENTITY);
    assert CacheOk(IDENTITY, p);
    assert Run(o2, c) == State(IDENTITY, p);
    assert !SaysNothing(p) && p & PERSPECTIVE == 0;
    assert Run(o3, c).mask == p;
    assert Run(o4, c).mask == p;
    assert Stale(o3, c);
  }

  // ----- Mapping points

  /** The documented mapping, without perspective. */
  function MapAffine(m: Mat, p: Point): Point {
    Point(m[0] * p.x + m[1] * p.y + m[2], m[3] * p.x + m[4] * p.y + m[5])
  }

  /** The mapping that `setScaleTranslate` writes, by its documented meaning. */
  lemma ScaleTranslateMaps(st: State, sx: real, sy: real, tx: real, ty: real, c: Classifier, p: Point)
    ensures var m := Step(st, SetScaleTranslate(sx, sy, tx, ty), c).mat;
            MapAffine(m, p) == Point(sx * p.x + tx, sy * p.y + ty) && !HasPersp(m)
  {
    NoFactor(0.0, p.x);
    NoFactor(0.0, p.y);
  }

  /** The mapping that `setAll` writes, by the names of its arguments. */
  lemma SetAllMaps(st: State, scaleX: real, skewX: real, transX: real, skewY: real, scaleY: real, transY: real,
                   persp0: real, persp1: real, persp2: real, c: Classifier, p: Point)
    ensures var entries := [scaleX, skewX, transX, skewY, scaleY, transY, persp0, persp1, persp2];
            var m := Step(st, SetAll(entries), c).mat;
            && MapAffine(m, p) == Point(scaleX * p.x + skewX * p.y + transX, skewY * p.x + scaleY * p.y + transY)
            && (HasPersp(m) <==> persp0 != 0.0 || persp1 != 0.0 || persp2 != 1.0)
  {
  }

  /** Editing the translation moves every image by the change. */
  lemma EditTranslationMaps(st: State, tx: real, ty: real, c: Classifier, p: Point)
    ensures var m, q := Step(st, EditTranslation(tx, ty), c).mat, MapAffine(st.mat, p);
            MapAffine(m, p) == Point(q.x - st.mat[2] + tx, q.y - st.mat[5] + ty) && m[6..] == st.mat[6..]
  {
  }

  datatype Rect = Rect(left: real, top: real, right: real, bottom: real)

  predicate Inside(p: Point, r: Rect) { r.left <= p.x <= r.right && r.top <= p.y <= r.bottom }

  /** The rectangle with two given opposite corners. */
  function Spanning(a: Point, b: Point): Rect {
    Rect(if a.x < b.x then a.x else b.x, if a.y < b.y then a.y else b.y,
         if a.x < b.x then b.x else a.x, if a.y < b.y then b.y else a.y)
  }

  function MapRect(m: Mat, r: Rect): Rect {
    Spanning(MapAffine(m, Point(r.left, r.top)), MapAffine(m, Point(r.right, r.bottom)))
  }

  lemma AxisImage(m: Mat, p: Point)
    ensures m[1] == 0.0 && m[3] == 0.0 ==> MapAffine(m, p) == Point(Along(m[0], m[2], p.x), Along(m[4], m[5], p.y))
    ensures m[0] == 0.0 && m[4] == 0.0 ==> MapAffine(m, p) == Point(Along(m[1], m[2], p.y), Along(m[3], m[5], p.x))
  {
    NoFactor(m[0], p.x);
    NoFactor(m[1], p.y);
    NoFactor(m[3], p.x);
    NoFactor(m[4], p.y);
  }

  lemma NoFactor(k: real, v: real)
    ensures k == 0.0 ==> k * v == 0.0
  {
  }

  /** One axis of an axis-aligned mapping. */
  function Along(k: real, t: real, v: real): real { k * v + t }

  predicate Amid(a: real, v: real, b: real) { a <= v <= b || b <= v <= a }

  /** What the documented form promises: a point is in a rectangle exactly when its image is in the image
      rectangle. */
  lemma RectFormMapsRects(m: Mat, r: Rect, p: Point)
    requires RectForm(m) && r.left <= r.right && r.top <= r.bottom
    ensures Inside(p, r) <==> Inside(MapAffine(m, p), MapRect(m, r))
  {
    AxisImage(m, p);
    AxisImage(m, Point(r.left, r.top));
    AxisImage(m, Point(r.right, r.bottom));
    hide MapAffine, Along;
    if m[1] == 0.0 {
      Interval(m[0], m[2], r.left, r.right, p.x);
      Interval(m[4], m[5], r.top, r.bottom, p.y);
    } else {
      Interval(m[1], m[2], r.top, r.bottom, p.y);
      Interval(m[3], m[5], r.left, r.right, p.x);
    }
  }

  /** A non-zero factor maps intervals to intervals. */
  lemma Interval(k: real, t: real, lo: real, hi: real, v: real)
    requires k != 0.0 && lo <= hi
    ensures lo <= v <= hi <==> Amid(Along(k, t, lo), Along(k, t, v), Along(k, t, hi))
  {
    assert k * v - k * lo == k * (v - lo) && k * hi - k * v == k * (hi - v) && k * hi - k * lo == k * (hi - lo);
    ProductSign(k, v - lo);
    ProductSign(k, hi - v);
    ProductSign(k, hi - lo);
  }

  lemma ProductSign(k: real, d: real)
    ensures k > 0.0 ==> (k * d >= 0.0 <==> d >= 0.0) && (k * d > 0.0 <==> d > 0.0)
    ensures k < 0.0 ==> (k * d <= 0.0 <==> d >= 0.0) && (k * d < 0.0 <==> d > 0.0)
  {
  }

  // ----- What rectStaysRect says

  /** "Maps one rectangle into another": points inside go inside, points outside stay outside. */
  ghost predicate MapsRects(m: Mat) {
    forall r: Rect, p: Point :: r.left <= r.right && r.top <= r.bottom
                                ==> (Inside(p, r) <==> Inside(MapAffine(m, p), MapRect(m, r)))
  }

  lemma FormsMapRects(m: Mat)
    ensures RectForm(m) ==> MapsRects(m)
    ensures ZeroScaleForm(m) ==> !MapsRects(m) && !RectForm(m)
  {
    if RectForm(m) {
      forall r: Rect, p: Point | r.left <= r.right && r.top <= r.bottom
        ensures Inside(p, r) <==> Inside(MapAffine(m, p), MapRect(m, r))
      {
        RectFormMapsRects(m, r, p);
      }
    } else if ZeroScaleForm(m) {
      var r, p := Rect(0.0, 0.0, 1.0, 1.0), if m[0] == 0.0 then Point(2.0, 0.0) else Point(0.0, 2.0);
      AxisImage(m, p);
      AxisImage(m, Point(0.0, 0.0));
      AxisImage(m, Point(1.0, 1.0));
      hide MapAffine;
      assert Inside(MapAffine(m, p), MapRect(m, r)) && !Inside(p, r);
    }
  }

  /** Whether the mask still is the one that a `setScaleTranslate` with a zero factor wrote. */
  function FromZeroScale(ops: seq<Op>): bool {
    if |ops| == 0 then false
    else
      var before := ops[..|ops| - 1];
      match ops[|ops| - 1]
      case SetScaleTranslate(sx, sy, _, _) => sx == 0.0 || sy == 0.0
      case RefWrite(_, _) => FromZeroScale(before)
      case EditTranslation(_, _) => FromZeroScale(before)
      case GetType => FromZeroScale(before)
      case GetPerspective => FromZeroScale(before)
      case _ => false
  }

  /** The rect bit of a known mask, depending on where the mask comes from. */
  predicate RectBitOk(st: State, fromZero: bool) {
    if fromZero then st.mask & UNKNOWN == 0 && st.mask & RECT_STAYS_RECT != 0 && ZeroScaleForm(st.mat)
    else st.mask & UNKNOWN == 0 ==> RectExact(st.mat, st.mask)
  }

  lemma StepRectBit(st: State, op: Op, c: Classifier, fromZero: bool)
    requires c.Ok() && RectBitOk(st, fromZero) && (op.RefWrite? ==> SaysNothing(st.mask))
    requires op.RefWrite? || op.EditTranslation? || op.GetType? || op.GetPerspective?
    ensures RectBitOk(Step(st, op, c), fromZero)
  {
    match op
    case EditTranslation(tx, ty) =>
      OtherBits(st.mask, UNKNOWN);
      OtherBits(st.mask, RECT_STAYS_RECT);
    case _ =>
      hide Complete, CacheOk, PerspSetsAll;
  }

  lemma FreshRectBit(st: State, op: Op, c: Classifier)
    requires op.Dirty? || op.ElementRef? || op.SetAll? || op.SetScaleTranslate? || op.Set?
    ensures RectBitOk(Step(st, op, c), op.SetScaleTranslate? && (op.sx == 0.0 || op.sy == 0.0))
  {
    match op
    case SetScaleTranslate(sx, sy, tx, ty) => ScaleTranslateComplete(sx, sy, tx, ty);
    case _ =>
  }

  lemma {:induction false} RunRectBit(ops: seq<Op>, c: Classifier)
    requires c.Ok() && Disciplined(ops, c) && !Stale(ops, c)
    ensures RectBitOk(Run(ops, c), FromZeroScale(ops))
  {
    hide RectBitOk, Step, SaysNothing, Classifier.Ok;
    if |ops| == 0 {
      StartRectBit();
    } else {
      var before, op := ops[..|ops| - 1], ops[|ops| - 1];
      assert forall i :: 0 <= i < |before| ==> before[..i] == ops[..i];
      if op.RefWrite? || op.EditTranslation? || op.GetType? || op.GetPerspective? {
        RunRectBit(before, c);
        StepRectBit(Run(before, c), op, c, FromZeroScale(before));
      } else {
        FreshRectBit(Run(before, c), op, c);
      }
    }
  }

  lemma StartRectBit()
    ensures RectBitOk(START, false)
  {
  }

  /** After any disciplined operations, an answer true of `rectStaysRect` means the documented form, and so
      that rectangles map to rectangles, exactly when the mask is not left over from a `setScaleTranslate`
      with a zero factor. */
  lemma RectStaysRectIff(ops: seq<Op>, c: Classifier)
    requires c.Ok() && Disciplined(ops, c) && !Stale(ops, c)
    ensures var st := Step(Run(ops, c), GetType, c);
            && (FromZeroScale(ops) ==> st.mask & RECT_STAYS_RECT != 0)
            && (st.mask & RECT_STAYS_RECT != 0 ==> (RectForm(st.mat) <==> !FromZeroScale(ops)))
            && (st.mask & RECT_STAYS_RECT != 0 ==> (MapsRects(st.mat) <==> !FromZeroScale(ops)))
            && (c.Exact() ==> (st.mask & RECT_STAYS_RECT != 0 <==> RectForm(st.mat) || FromZeroScale(ops)))
  {
    var st := Step(Run(ops, c), GetType, c);
    RunRectBit(ops, c);
    assert c.Exact() ==> (RectForm(st.mat) ==> st.mask & RECT_STAYS_RECT != 0) by {
      if c.Exact() {
        RunKeepsCache(ops, c);
        RunKnownExactly(ops, c);
        FilledExactly(Run(ops, c), c);
        hide CacheOk, KnownExactly, Complete, Classifier.Ok, Classifier.Exact, RectForm;
      }
    }
    assert st.mask & RECT_STAYS_RECT != 0
           ==> if FromZeroScale(ops) then ZeroScaleForm(st.mat) else RectForm(st.mat) by {
      hide Complete, PerspSetsAll, PerspMaskContract;
    }
    FormsMapRects(st.mat);
    hide RectForm, ZeroScaleForm, MapsRects, Classifier.Ok;
  }

  /** Directly after `setScaleTranslate` the answer is true whatever the factors; it is right exactly when
      neither is zero. */
  lemma ScaleTranslateRectIff(st: State, sx: real, sy: real, tx: real, ty: real, c: Classifier)
    ensures var written := Step(st, SetScaleTranslate(sx, sy, tx, ty), c);
            && Step(written, GetType, c).mask & RECT_STAYS_RECT != 0
            && (MapsRects(Step(written, GetType, c).mat) <==> sx != 0.0 && sy != 0.0)
  {
    var written := Step(st, SetScaleTranslate(sx, sy, tx, ty), c);
    ScaleTranslateComplete(sx, sy, tx, ty);
    FormsMapRects(written.mat);
    hide MapsRects, Complete;
  }

  /** `SkMatrix`: nine entries and their cached type mask.  `classifier` stands for the two functions the
      header only declares. */
  class SkMatrix {
    const classifier: Classifier
    var fMat: array<real>
    var fTypeMask: Mask

    ghost predicate Shape()
      reads this
    {
      fMat.Length == 9 && classifier.Ok()
    }

    ghost function Now(): State
      requires Shape()
      reads this, fMat
    {
      State(fMat[..], fTypeMask)
    }

    ghost predicate Valid()
      reads this, fMat
    {
      Shape() && CacheOk(fMat[..], fTypeMask)
    }

    constructor (classifier: Classifier)
      requires classifier.Ok()
      ensures Valid() && Now() == START && fresh(fMat) && this.classifier == classifier
      ensures fMat[..] == IDENTITY && fTypeMask & UNKNOWN == 0 && NoFalsePositives(fMat[..], fTypeMask)
    {
      this.classifier := classifier;
      fMat := new real[9] [1.0, 0.0, 0.0, 0.0, 1.0, 0.0, 0.0, 0.0, 1.0];
      fTypeMask := RECT_STAYS_RECT;
    }

    /** `getType`: the public bits of a complete mask. */
    method GetType() returns (mask: Mask)
      requires Valid()
      modifies `fTypeMask
      ensures Valid() && Now() == Step(old(Now()), Op.GetType, classifier)
      ensures Complete(fMat[..], fTypeMask) && mask == fTypeMask & ORABLE
      ensures fTypeMask == if old(fTypeMask) & UNKNOWN != 0 then classifier.typeMask(fMat[..]) else old(fTypeMask)
    {
      if fTypeMask & UNKNOWN != 0 {
        fTypeMask := classifier.typeMask(fMat[..]);
      }
      hide Complete;
      mask := fTypeMask & ORABLE;
    }

    /** `isIdentity`. */
    method IsIdentity() returns (r: bool)
      requires Valid()
      modifies `fTypeMask
      ensures Valid() && Now() == Step(old(Now()), Op.GetType, classifier)
      ensures r ==> fMat[..] == IDENTITY
      ensures NoFalsePositives(fMat[..], fTypeMask) ==> (r <==> fMat[..] == IDENTITY)
    {
      var mask := GetType();
      QueriesAreSound(fMat[..], fTypeMask);
      AnswersFor(fMat[..], fTypeMask);
      r := mask == 0;
    }

    /** `isScaleTranslate`. */
    method IsScaleTranslate() returns (r: bool)
      requires Valid()
      modifies `fTypeMask
      ensures Valid() && Now() == Step(old(Now()), Op.GetType, classifier)
      ensures r ==> ScaleTranslateForm(fMat[..])
      ensures NoFalsePositives(fMat[..], fTypeMask) ==> (r <==> ScaleTranslateForm(fMat[..]))
    {
      var mask := GetType();
      QueriesAreSound(fMat[..], fTypeMask);
      AnswersFor(fMat[..], fTypeMask);
      r := mask & !(SCALE | TRANSLATE) == 0;
    }

    /** `isTranslate`. */
    method IsTranslate() returns (r: bool)
      requires Valid()
      modifies `fTypeMask
      ensures Valid() && Now() == Step(old(Now()), Op.GetType, classifier)
      ensures r ==> TranslateForm(fMat[..])
      ensures NoFalsePositives(fMat[..], fTypeMask) ==> (r <==> TranslateForm(fMat[..]))
    {
      var mask := GetType();
      QueriesAreSound(fMat[..], fTypeMask);
      AnswersFor(fMat[..], fTypeMask);
      r := mask & !TRANSLATE == 0;
    }

    /** `rectStaysRect`. */
    method RectStaysRect() returns (r: bool)
      requires Valid()
      modifies `fTypeMask
      ensures Valid() && Now() == Step(old(Now()), Op.GetType, classifier)
      ensures r ==> RectForm(fMat[..]) || (old(fTypeMask) & UNKNOWN == 0 && ZeroScaleForm(fMat[..]))
      ensures r <==> fTypeMask & RECT_STAYS_RECT != 0
    {
      if fTypeMask & UNKNOWN != 0 {
        fTypeMask := classifier.typeMask(fMat[..]);
      }
      assert Complete(fMat[..], fTypeMask) && (old(fTypeMask) & UNKNOWN != 0 ==> RectExact(fMat[..], fTypeMask));
      r := fTypeMask & RECT_STAYS_RECT != 0;
    }

    /** `getPerspectiveTypeMaskOnly`. */
    method GetPerspectiveTypeMaskOnly() returns (mask: Mask)
      requires Valid()
      modifies `fTypeMask
      ensures Valid() && Now() == Step(old(Now()), Op.GetPerspective, classifier)
      ensures PerspExact(fMat[..], fTypeMask) && mask == fTypeMask & ORABLE
      ensures fTypeMask == if SaysNothing(old(fTypeMask)) then classifier.perspMask(fMat[..]) else old(fTypeMask)
    {
      if fTypeMask & UNKNOWN != 0 && fTypeMask & ONLY_PERSPECTIVE_VALID == 0 {
        fTypeMask := classifier.perspMask(fMat[..]);
      }
      mask := fTypeMask & ORABLE;
    }

    /** `hasPerspective`: exactly when the bottom row is not (0, 0, 1), in every state of the cache. */
    method HasPerspective() returns (r: bool)
      requires Valid()
      modifies `fTypeMask
      ensures Valid() && Now() == Step(old(Now()), Op.GetPerspective, classifier)
      ensures r <==> HasPersp(fMat[..])
    {
      var mask := GetPerspectiveTypeMaskOnly();
      PerspIsPublic(fTypeMask);
      r := mask & PERSPECTIVE != 0;
    }

    /** `isTriviallyIdentity`: answers from the cache alone. */
    method IsTriviallyIdentity() returns (r: bool)
      requires Valid()
      ensures r ==> fMat[..] == IDENTITY
      ensures NoFalsePositives(fMat[..], fTypeMask) ==> (r <==> fTypeMask & UNKNOWN == 0 && fMat[..] == IDENTITY)
    {
      if fTypeMask & UNKNOWN != 0 {
        return false;
      }
      QueriesAreSound(fMat[..], fTypeMask);
      AnswersFor(fMat[..], fTypeMask);
      r := fTypeMask & ORABLE == 0;
    }

    /** `mapOrigin`: (C / I, F / I), with (0, 0) where the perspective scale I is zero. */
    method MapOrigin() returns (p: Point)
      requires Valid()
      modifies `fTypeMask
      ensures Valid()
      ensures fMat[8] != 0.0 ==> p == Point(fMat[2] / fMat[8], fMat[5] / fMat[8])
      ensures fMat[8] == 0.0 ==> p == Point(0.0, 0.0)
    {
      var x, y := fMat[2], fMat[5];
      var persp := HasPerspective();
      if persp {
        var w := fMat[8];
        if w != 0.0 {
          Reciprocal(x, w);
          Reciprocal(y, w);
          w := 1.0 / w;
        }
        x := x * w;
        y := y * w;
      }
      p := Point(x, y);
    }

    /** `set`. */
    method SetEntry(index: Index, value: real)
      requires Shape()
      modifies this, fMat
      ensures Valid() && fMat == old(fMat) && Now() == Step(old(Now()), Op.Set(index, value), classifier)
      ensures forall k :: 0 <= k < 9 ==> fMat[k] == if k == index then value else old(fMat[k])
    {
      fMat[index] := value;
      fTypeMask := UNKNOWN;
    }

    /** The writable `operator[]`, which forgets the mask and hands out a reference. */
    method Element(index: Index)
      requires Shape()
      modifies `fTypeMask
      ensures Valid() && Now() == Step(old(Now()), Op.ElementRef(index), classifier)
    {
      fTypeMask := UNKNOWN;
    }

    /** A write through such a reference: the mask is not touched. */
    method WriteElement(index: Index, value: real)
      requires Shape()
      modifies fMat
      ensures Shape() && Now() == Step(old(Now()), Op.RefWrite(index, value), classifier)
      ensures forall k :: 0 <= k < 9 ==> fMat[k] == if k == index then value else old(fMat[k])
      ensures SaysNothing(fTypeMask) ==> Valid()
    {
      fMat[index] := value;
    }

    /** `dirtyMatrixTypeCache`. */
    method DirtyMatrixTypeCache()
      requires Shape()
      modifies `fTypeMask
      ensures Valid() && Now() == Step(old(Now()), Op.Dirty, classifier)
    {
      fTypeMask := UNKNOWN;
    }

    /** `setAll`. */
    method SetAll(scaleX: real, skewX: real, transX: real, skewY: real, scaleY: real, transY: real,
                  persp0: real, persp1: real, persp2: real)
      requires Shape()
      modifies this, fMat
      ensures Valid() && fMat == old(fMat)
      ensures var entries := [scaleX, skewX, transX, skewY, scaleY, transY, persp0, persp1, persp2];
              Now() == Step(old(Now()), Op.SetAll(entries), classifier)
      ensures fMat[0] == scaleX && fMat[1] == skewX && fMat[2] == transX
      ensures fMat[3] == skewY && fMat[4] == scaleY && fMat[5] == transY
      ensures fMat[6] == persp0 && fMat[7] == persp1 && fMat[8] == persp2
    {
      fMat[0], fMat[1], fMat[2] := scaleX, skewX, transX;
      fMat[3], fMat[4], fMat[5] := skewY, scaleY, transY;
      fMat[6], fMat[7], fMat[8] := persp0, persp1, persp2;
      fTypeMask := UNKNOWN;
      assert fMat[..] == [scaleX, skewX, transX, skewY, scaleY, transY, persp0, persp1, persp2];
    }

    /** `setScaleTranslate`: the only writer that knows its mask. */
    method SetScaleTranslate(sx: real, sy: real, tx: real, ty: real)
      requires Shape()
      modifies this, fMat
      ensures Valid() && fMat == old(fMat)
      ensures Now() == Step(old(Now()), Op.SetScaleTranslate(sx, sy, tx, ty), classifier)
      ensures ScaleTranslateForm(fMat[..]) && fMat[0] == sx && fMat[4] == sy && fMat[2] == tx && fMat[5] == ty
    {
      fMat[0], fMat[1], fMat[2] := sx, 0.0, tx;
      fMat[3], fMat[4], fMat[5] := 0.0, sy, ty;
      fMat[6], fMat[7], fMat[8] := 0.0, 0.0, 1.0;
      var mask: Mask := 0;
      if sx != 1.0 || sy != 1.0 {
        mask := mask | SCALE;
      }
      if tx != 0.0 || ty != 0.0 {
        mask := mask | TRANSLATE;
      }
      fTypeMask := mask | RECT_STAYS_RECT;
      assert fMat[..] == [sx, 0.0, tx, 0.0, sy, ty, 0.0, 0.0, 1.0];
      ScaleTranslateComplete(sx, sy, tx, ty);
    }

    /** `updateTranslateMask`: the translate bit becomes exact, and no other bit changes. */
    method UpdateTranslateMask()
      requires Shape()
      modifies `fTypeMask
      ensures Shape() && fTypeMask == UpdatedTranslateMask(fMat[..], old(fTypeMask))
      ensures TranslateExact(fMat[..], fTypeMask) && SameOtherBits(old(fTypeMask), fTypeMask)
    {
      ghost var mask := fTypeMask;
      if fMat[2] != 0.0 || fMat[5] != 0.0 {
        fTypeMask := fTypeMask | TRANSLATE;
      } else {
        fTypeMask := fTypeMask & !TRANSLATE;
      }
      assert fTypeMask == UpdatedTranslateMask(fMat[..], mask);
      hide *;
      UpdatedMaskExact(fMat[..], mask);
    }

    /** A change of the two translation entries followed by `updateTranslateMask`. */
    method EditTranslation(tx: real, ty: real)
      requires Shape()
      modifies this, fMat
      ensures Shape() && fMat == old(fMat) && Now() == Step(old(Now()), Op.EditTranslation(tx, ty), classifier)
      ensures forall k :: 0 <= k < 9 ==> fMat[k] == if k == 2 then tx else if k == 5 then ty else old(fMat[k])
      ensures old(Valid()) ==> Valid()
    {
      hide CacheOk, UpdatedTranslateMask;
      ghost var m := fMat[..];
      EditTranslationKeeps(m, fTypeMask, tx, ty);
      fMat[2] := tx;
      fMat[5] := ty;
      assert fMat[..] == m[2 := tx][5 := ty];
      UpdateTranslateMask();
    }
  }

  lemma PerspIsPublic(mask: Mask)
    ensures (mask & ORABLE) & PERSPECTIVE == mask & PERSPECTIVE
  {
  }

  lemma Reciprocal(x: real, w: real)
    requires w != 0.0
    ensures x * (1.0 / w) == x / w
  {
    assert x / w == x * (1.0 / w);
  }
}
