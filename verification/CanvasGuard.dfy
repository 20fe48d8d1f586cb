/** The save stack of a canvas and the scope guard that restores it (SkCanvas.h).  S is what a save keeps:
    matrix and clip. */
module CanvasGuard {
  import opened Basics

  // ----- The documented save stack; its last element is the current state

  /** `save`: pushes a copy of the current state. */
  function Saved<S>(st: seq<S>): seq<S>
    requires |st| >= 1
  {
    st + [st[|st| - 1]]
  }

  /** `restore`: does nothing when there is no saved state left. */
  function Restored<S>(st: seq<S>): seq<S> {
    if |st| > 1 then st[..|st| - 1] else st
  }

  /** `restoreToCount`: does nothing above the current count, and stops at the initial state. */
  function RestoredTo<S>(st: seq<S>, count: int): seq<S> {
    if count > |st| then st else if count < 1 then (if |st| >= 1 then st[..1] else st) else st[..count]
  }

  function Edited<S>(st: seq<S>, s: S): seq<S>
    requires |st| >= 1
  {
    st[|st| - 1 := s]
  }

  // ----- Programs with nested guards

  /** A guard runs its body, possibly calls its own restore() followed by more code, and is then destroyed. */
  datatype Op<S> =
    | Save
    | Restore
    | RestoreToCount(count: int)
    | Edit(s: S)
    | Guard(doSave: bool, body: seq<Op<S>>, explicit: bool, after: seq<Op<S>>)

  function Exec<S>(op: Op<S>, st: seq<S>): (r: seq<S>)
    requires |st| >= 1
    ensures |r| >= 1
    decreases op, 1
  {
    match op
    case Save => Saved(st)
    case Restore => Restored(st)
    case RestoreToCount(count) => RestoredTo(st, count)
    case Edit(s) => Edited(st, s)
    case Guard(doSave, body, explicit, after) =>
      var inside := ExecAll(body, if doSave then Saved(st) else st);
      if explicit then ExecAll(after, RestoredTo(inside, |st|))
      else RestoredTo(ExecAll(after, inside), |st|)
  }

  function ExecAll<S>(ops: seq<Op<S>>, st: seq<S>): (r: seq<S>)
    requires |st| >= 1
    ensures |r| >= 1
    decreases ops, 0
  {
    if |ops| == 0 then st else ExecAll(ops[1..], Exec(ops[0], st))
  }

  /** The depth stays at n or more after every operation, inside nested guards too. */
  predicate StaysAbove<S>(ops: seq<Op<S>>, st: seq<S>, n: int)
    requires |st| >= 1
    decreases ops, 0
  {
    |st| >= n && (|ops| > 0 ==> StepAbove(ops[0], st, n) && StaysAbove(ops[1..], Exec(ops[0], st), n))
  }

  predicate StepAbove<S>(op: Op<S>, st: seq<S>, n: int)
    requires |st| >= 1
    decreases op, 1
  {
    match op
    case Guard(doSave, body, explicit, after) =>
      var start := if doSave then Saved(st) else st;
      var inside := ExecAll(body, start);
      StaysAbove(body, start, n) && StaysAbove(after, if explicit then RestoredTo(inside, |st|) else inside, n)
    case _ => true
  }

  /** What lies below the lowest depth a program reaches is never touched. */
  lemma {:induction false} BelowUntouched<S>(ops: seq<Op<S>>, st: seq<S>, n: nat)
    requires |st| >= 1 && StaysAbove(ops, st, n + 1)
    ensures |ExecAll(ops, st)| > n && ExecAll(ops, st)[..n] == st[..n]
    decreases ops, 0
  {
    if |ops| > 0 {
      var next := Exec(ops[0], st);
      assert |next| >= n + 1;
      StepUntouched(ops[0], st, n);
      BelowUntouched(ops[1..], next, n);
    }
  }

  lemma {:induction false} StepUntouched<S>(op: Op<S>, st: seq<S>, n: nat)
    requires |st| >= n + 1 && StepAbove(op, st, n + 1) && |Exec(op, st)| >= n + 1
    ensures Exec(op, st)[..n] == st[..n]
    decreases op, 1
  {
    match op
    case Guard(doSave, body, explicit, after) =>
      var start := if doSave then Saved(st) else st;
      var inside := ExecAll(body, start);
      BelowUntouched(body, start, n);
      assert start[..n] == st[..n];
      BelowUntouched(after, if explicit then RestoredTo(inside, |st|) else inside, n);
    case _ =>
  }

  /** The n-th state from the bottom, if the stack is that deep. */
  function Level<S>(st: seq<S>, n: nat): Option<S> {
    if 1 <= n <= |st| then Some(st[n - 1]) else None
  }

  /** What a program last did to level n: the state it wrote there while that was the current one, the copy a
      save put there, or none if it popped the level; v if it never touched it. */
  function LastAll<S>(ops: seq<Op<S>>, st: seq<S>, n: nat, v: Option<S>): Option<S>
    requires |st| >= 1
    decreases ops, 0
  {
    if |ops| == 0 then v else LastAll(ops[1..], Exec(ops[0], st), n, LastOf(ops[0], st, n, v))
  }

  function LastOf<S>(op: Op<S>, st: seq<S>, n: nat, v: Option<S>): Option<S>
    requires |st| >= 1
    decreases op, 1
  {
    match op
    case Save => CopiedAt(st, n, v)
    case Edit(s) => if |st| == n then Some(s) else v
    case Guard(doSave, body, explicit, after) =>
      var start := if doSave then Saved(st) else st;
      var inside := ExecAll(body, start);
      var done := LastAll(body, start, n, if doSave then CopiedAt(st, n, v) else v);
      if explicit then LastAll(after, RestoredTo(inside, |st|), n, KeptIn(RestoredTo(inside, |st|), n, done))
      else KeptIn(Exec(op, st), n, LastAll(after, inside, n, done))
    case _ => KeptIn(Exec(op, st), n, v)
  }

  function CopiedAt<S>(st: seq<S>, n: nat, v: Option<S>): Option<S>
    requires |st| >= 1
  {
    if |st| + 1 == n then Some(st[|st| - 1]) else v
  }

  function KeptIn<S>(st: seq<S>, n: nat, v: Option<S>): Option<S> { if |st| < n then None else v }

  /** Every level holds what was last done to it, after any program. */
  lemma {:induction false} LevelHoldsLast<S>(ops: seq<Op<S>>, st: seq<S>, n: nat)
    requires |st| >= 1
    ensures LastAll(ops, st, n, Level(st, n)) == Level(ExecAll(ops, st), n)
    decreases ops, 0
  {
    if |ops| > 0 {
      StepHoldsLast(ops[0], st, n);
      LevelHoldsLast(ops[1..], Exec(ops[0], st), n);
    }
  }

  lemma {:induction false} StepHoldsLast<S>(op: Op<S>, st: seq<S>, n: nat)
    requires |st| >= 1
    ensures LastOf(op, st, n, Level(st, n)) == Level(Exec(op, st), n)
    decreases op, 1
  {
    match op
    case Guard(doSave, body, explicit, after) =>
      var start := if doSave then Saved(st) else st;
      var inside := ExecAll(body, start);
      assert Level(start, n) == if doSave then CopiedAt(st, n, Level(st, n)) else Level(st, n);
      LevelHoldsLast(body, start, n);
      LevelHoldsLast(after, if explicit then RestoredTo(inside, |st|) else inside, n);
    case _ =>
  }

  /** A guard gives back the stack it found if and only if the last thing done to each of its levels, if any,
      put back the state that was there. */
  lemma GuardRestoresIff<S>(st: seq<S>, doSave: bool, body: seq<Op<S>>, after: seq<Op<S>>)
    requires |st| >= 1
    ensures var start := if doSave then Saved(st) else st;
            var inside := ExecAll(body, start);
            Exec(Guard(doSave, body, false, after), st) == st
            <==> forall n :: 1 <= n <= |st|
                             ==> LastAll(after, inside, n, LastAll(body, start, n, Level(st, n))) == Level(st, n)
  {
    var start := if doSave then Saved(st) else st;
    var inside := ExecAll(body, start);
    var end := ExecAll(after, inside);
    forall n | 1 <= n <= |st|
      ensures LastAll(after, inside, n, LastAll(body, start, n, Level(st, n))) == Level(end, n)
    {
      assert Level(start, n) == Level(st, n);
      LevelHoldsLast(body, start, n);
      LevelHoldsLast(after, inside, n);
    }
    hide ExecAll, LastAll, Saved;
    LevelsDecide(end, st);
  }

  lemma LevelsDecide<S>(end: seq<S>, st: seq<S>)
    requires |st| >= 1 && |end| >= 1
    ensures RestoredTo(end, |st|) == st <==> forall n :: 1 <= n <= |st| ==> Level(end, n) == Level(st, n)
  {
    if forall n :: 1 <= n <= |st| ==> Level(end, n) == Level(st, n) {
      assert Level(end, |st|) == Level(st, |st|);
      forall i | 0 <= i < |st|
        ensures end[i] == st[i]
      {
        assert Level(end, i + 1) == Level(st, i + 1);
      }
    } else {
      var n :| 1 <= n <= |st| && Level(end, n) != Level(st, n);
    }
  }

  /** What a guard leaves after a body that stays at or above the recorded count: the stack it found, with
      what was last done to its top level on top. */
  lemma GuardLeaves<S>(st: seq<S>, doSave: bool, body: seq<Op<S>>)
    requires |st| >= 1 && StaysAbove(body, if doSave then Saved(st) else st, |st|)
    ensures var start := if doSave then Saved(st) else st;
            var v := LastAll(body, start, |st|, Level(st, |st|));
            v.Some? && RestoredTo(ExecAll(body, start), |st|) == Edited(st, v.value)
  {
    var n, start := |st|, if doSave then Saved(st) else st;
    assert StaysAbove(body, start, n - 1 + 1);
    BelowUntouched(body, start, n - 1);
    LevelHoldsLast(body, start, n);
    assert Level(start, n) == Level(st, n) && start[..n - 1] == st[..n - 1];
    hide ExecAll, LastAll, StaysAbove, Saved;
    TopAndRest(ExecAll(body, start), st);
  }

  lemma TopAndRest<S>(r: seq<S>, st: seq<S>)
    requires |r| >= |st| >= 1 && r[..|st| - 1] == st[..|st| - 1]
    ensures RestoredTo(r, |st|) == Edited(st, r[|st| - 1])
  {
  }

  /** Above the recorded count only the top level matters: the guard gives back the stack exactly when the
      last state written at the recorded depth, if any, is the one that was there.  After its own restore()
      the rest runs on that stack and is not undone. */
  lemma GuardAboveRestoresIff<S>(st: seq<S>, doSave: bool, body: seq<Op<S>>, after: seq<Op<S>>)
    requires |st| >= 1 && StaysAbove(body, if doSave then Saved(st) else st, |st|)
    ensures var start := if doSave then Saved(st) else st;
            var v := LastAll(body, start, |st|, Some(st[|st| - 1]));
            && v.Some?
            && (Exec(Guard(doSave, body, false, []), st) == st <==> v.value == st[|st| - 1])
            && Exec(Guard(doSave, body, true, after), st) == ExecAll(after, Edited(st, v.value))
  {
    GuardLeaves(st, doSave, body);
  }

  /** As long as the saved copy itself is never popped nothing is written at the recorded depth, so a guard
      that saves gives back the whole stack, however its body nests saves, restores, edits and guards; code
      after an explicit restore() is not undone a second time. */
  lemma GuardRestoresStack<S>(st: seq<S>, body: seq<Op<S>>, explicit: bool, after: seq<Op<S>>)
    requires |st| >= 1 && StaysAbove(body, Saved(st), |st| + 1)
    ensures explicit ==> Exec(Guard(true, body, true, after), st) == ExecAll(after, st)
    ensures !explicit && StaysAbove(after, ExecAll(body, Saved(st)), |st| + 1)
            ==> Exec(Guard(true, body, false, after), st) == st
  {
    BelowUntouched(body, Saved(st), |st|);
    assert Saved(st)[..|st|] == st;
    if !explicit && StaysAbove(after, ExecAll(body, Saved(st)), |st| + 1) {
      BelowUntouched(after, ExecAll(body, Saved(st)), |st|);
    }
  }

  /** A guard that does not save gives back everything but the current state, which becomes what was last
      done to its level. */
  lemma UnsavedGuardRestoresDepth<S>(st: seq<S>, body: seq<Op<S>>)
    requires |st| >= 1 && StaysAbove(body, st, |st|)
    ensures var r := Exec(Guard(false, body, false, []), st);
            && |r| == |st| && r[..|st| - 1] == st[..|st| - 1]
            && Some(r[|st| - 1]) == LastAll(body, st, |st|, Some(st[|st| - 1]))
  {
    GuardLeaves(st, false, body);
  }

  /** Staying at the recorded count is not enough: popping the saved copy and editing changes the state the
      guard should have kept. */
  lemma PoppedCopyCounterExample<S>(st: seq<S>, s: S)
    requires |st| >= 1
    ensures var body := [Op.Restore, Edit(s)];
            && StaysAbove(body, Saved(st), |st|)
            && Exec(Guard(true, body, false, []), st) == Edited(st, s)
  {
    var body, start := [Op.Restore, Edit(s)], Saved(st);
    assert Restored(start) == st;
    hide Saved, Restored, Edited, RestoredTo;
    RunTwo(Op.Restore, Edit(s), start, |st|);
    assert Edited(st, s) == RestoredTo(Edited(st, s), |st|) by { EditedDepth(st, s); }
  }

  lemma EditedDepth<S>(st: seq<S>, s: S)
    requires |st| >= 1
    ensures |Edited(st, s)| == |st| && RestoredTo(Edited(st, s), |st|) == Edited(st, s)
  {
  }

  lemma RunTwo<S>(first: Op<S>, second: Op<S>, st: seq<S>, n: int)
    requires |st| >= 1 && !first.Guard? && !second.Guard?
    ensures ExecAll([first, second], st) == Exec(second, Exec(first, st))
    ensures |st| >= n && |Exec(first, st)| >= n && |Exec(second, Exec(first, st))| >= n
            ==> StaysAbove([first, second], st, n)
  {
    hide Saved, Restored, Edited, RestoredTo;
    var rest := [second];
    assert [first, second][1..] == rest && rest[1..] == [];
    hide Exec;
    assert ExecAll(rest, Exec(first, st)) == Exec(second, Exec(first, st));
    if |st| >= n && |Exec(first, st)| >= n && |Exec(second, Exec(first, st))| >= n {
      assert StaysAbove([], Exec(second, Exec(first, st)), n);
      assert StaysAbove(rest, Exec(first, st), n);
    }
  }

  /** A body that pops below the recorded count is not undone: the destructor, and an explicit restore(), do
      nothing, and what it left stays. */
  lemma GuardBelowKeeps<S>(st: seq<S>, doSave: bool, body: seq<Op<S>>, after: seq<Op<S>>)
    requires |st| >= 1 && |ExecAll(body, if doSave then Saved(st) else st)| < |st|
    ensures var left := ExecAll(body, if doSave then Saved(st) else st);
            && Exec(Guard(doSave, body, false, []), st) == left
            && Exec(Guard(doSave, body, true, after), st) == ExecAll(after, left)
  {
  }

  // ----- The classes

  function Min(a: int, b: int): int { if a < b then a else b }

  function Max(a: int, b: int): int { if a > b then a else b }

  /** The part of `SkCanvas` a guard drives. */
  class SkCanvas<S> {
    var stack: seq<S>

    constructor (initial: S)
      ensures stack == [initial]
    {
      stack := [initial];
    }

    method Save() returns (count: int)
      requires |stack| >= 1
      modifies this
      ensures stack == Saved(old(stack)) && count == |old(stack)|
      ensures stack == old(stack) + [old(stack)[|old(stack)| - 1]]
    {
      count := |stack|;
      stack := stack + [stack[|stack| - 1]];
    }

    /** `restore`: one saved state less, but never below the initial state. */
    method Restore()
      requires |stack| >= 1
      modifies this
      ensures stack == Restored(old(stack))
      ensures |stack| == Max(|old(stack)| - 1, 1) && stack == old(stack)[..|stack|]
    {
      if |stack| > 1 {
        stack := stack[..|stack| - 1];
      }
    }

    /** Any call that changes the current matrix or clip. */
    method Edit(s: S)
      requires |stack| >= 1
      modifies this
      ensures stack == Edited(old(stack), s)
      ensures stack == old(stack)[..|old(stack)| - 1] + [s]
    {
      stack := stack[|stack| - 1 := s];
    }

    method RestoreToCount(count: int)
      requires |stack| >= 1
      modifies this
      ensures stack == RestoredTo(old(stack), count)
      ensures |stack| == Min(|old(stack)|, Max(count, 1)) && stack == old(stack)[..|stack|]
    {
      if count <= |stack| {
        stack := stack[..if count < 1 then 1 else count];
      }
    }
  }

  /** `SkAutoCanvasRestore`. */
  class SkAutoCanvasRestore<S> {
    var fCanvas: SkCanvas?<S>
    var fSaveCount: int

    constructor (canvas: SkCanvas?<S>, doSave: bool)
      requires canvas != null ==> |canvas.stack| >= 1
      modifies canvas
      ensures fCanvas == canvas
      ensures canvas != null ==> fSaveCount == |old(canvas.stack)|
                                 && canvas.stack == if doSave then Saved(old(canvas.stack)) else old(canvas.stack)
    {
      fCanvas := canvas;
      fSaveCount := 0;
      new;
      if canvas != null {
        fSaveCount := |canvas.stack|;
        if doSave {
          var _ := canvas.Save();
        }
      }
    }

    /** The destructor. */
    method Destroy()
      requires fCanvas != null ==> |fCanvas.stack| >= 1
      modifies fCanvas
      ensures fCanvas != null ==> fCanvas.stack == RestoredTo(old(fCanvas.stack), fSaveCount)
    {
      if fCanvas != null {
        fCanvas.RestoreToCount(fSaveCount);
      }
    }

    /** `restore`: also forgets the canvas, so that later calls and the destructor do nothing. */
    method RestoreNow()
      requires fCanvas != null ==> |fCanvas.stack| >= 1
      modifies this, fCanvas
      ensures fCanvas == null
      ensures old(fCanvas) != null ==> old(fCanvas).stack == RestoredTo(old(fCanvas.stack), old(fSaveCount))
    {
      if fCanvas != null {
        fCanvas.RestoreToCount(fSaveCount);
        fCanvas := null;
      }
    }
  }

  /** Performs a program on a canvas: the guards of the classes do what the programs above say, also after
      their own restore(). */
  method PerformAll<S>(canvas: SkCanvas<S>, ops: seq<Op<S>>)
    requires |canvas.stack| >= 1
    modifies canvas
    ensures canvas.stack == ExecAll(ops, old(canvas.stack))
    decreases ops, 0
  {
    if |ops| > 0 {
      Perform(canvas, ops[0]);
      PerformAll(canvas, ops[1..]);
    }
  }

  method Perform<S>(canvas: SkCanvas<S>, op: Op<S>)
    requires |canvas.stack| >= 1
    modifies canvas
    ensures canvas.stack == Exec(op, old(canvas.stack))
    decreases op, 1
  {
    match op
    case Save => var _ := canvas.Save();
    case Restore => canvas.Restore();
    case RestoreToCount(count) => canvas.RestoreToCount(count);
    case Edit(s) => canvas.Edit(s);
    case Guard(doSave, body, explicit, after) =>
      var guard := new SkAutoCanvasRestore(canvas, doSave);
      PerformAll(canvas, body);
      if explicit {
        guard.RestoreNow();
      }
      PerformAll(canvas, after);
      guard.Destroy();
  }
}
