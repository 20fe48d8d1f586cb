/** Verb streams of paths: the builder that writes them (SkPathBuilder.h) and the iterator that walks
    them (SkPath.h). */
module PathStream {
  import opened Basics

  datatype Verb = Move | Line | Quad | Conic | Cubic | Close

  /** `pts_advance_after_verb`. */
  function PtsAdvance(verb: Verb): nat {
    match verb
    case Move => 1
    case Line => 1
    case Quad => 2
    case Conic => 2
    case Cubic => 3
    case Close => 0
  }

  /** `pts_backset_for_verb`. */
  function PtsBackset(verb: Verb): int {
    match verb
    case Move => 0
    case Line => -1
    case Quad => -1
    case Conic => -1
    case Cubic => -1
    case Close => -1
  }

  /** The number of points a verb is given by the iterator, its start point included. */
  function PtsSeen(verb: Verb): nat {
    match verb
    case Move => 1
    case Line => 2
    case Quad => 3
    case Conic => 3
    case Cubic => 4
    case Close => 0
  }

  /** The verb, point and weight arrays of a path. */
  datatype Path = Path(verbs: seq<Verb>, pts: seq<Point>, weights: seq<real>)

  function PointCount(verbs: seq<Verb>): nat {
    if |verbs| == 0 then 0 else PointCount(verbs[..|verbs| - 1]) + PtsAdvance(verbs[|verbs| - 1])
  }

  function WeightCount(verbs: seq<Verb>): nat {
    if |verbs| == 0 then 0
    else WeightCount(verbs[..|verbs| - 1]) + if verbs[|verbs| - 1].Conic? then 1 else 0
  }

  // ----- Legal verb sequences

  /** A contour: a Move, then segments, then an optional Close. */
  datatype Contour = Contour(segments: seq<Verb>, closed: bool)

  predicate IsSegment(verb: Verb) { verb.Line? || verb.Quad? || verb.Conic? || verb.Cubic? }

  function ContourVerbs(c: Contour): seq<Verb> {
    [Move] + c.segments + if c.closed then [Close] else []
  }

  function Flatten(cs: seq<Contour>): seq<Verb> {
    if |cs| == 0 then [] else Flatten(cs[..|cs| - 1]) + ContourVerbs(cs[|cs| - 1])
  }

  predicate OnlySegments(cs: seq<Contour>) {
    forall i, j :: 0 <= i < |cs| && 0 <= j < |cs[i].segments| ==> IsSegment(cs[i].segments[j])
  }

  /** The grammar in the documentation of `SkPath::Make`. */
  ghost predicate Legal(verbs: seq<Verb>) {
    exists cs :: OnlySegments(cs) && Flatten(cs) == verbs
  }

  /** The same language seen verb by verb: the first verb, and every verb after a Close, is a Move. */
  predicate MovesWhereNeeded(verbs: seq<Verb>) {
    && (|verbs| > 0 ==> verbs[0].Move?)
    && forall i :: 0 < i < |verbs| && verbs[i - 1].Close? ==> verbs[i].Move?
  }

  lemma {:induction false} FlattenMoves(cs: seq<Contour>)
    requires OnlySegments(cs)
    ensures MovesWhereNeeded(Flatten(cs))
    ensures |cs| > 0 ==> |Flatten(cs)| > 0
  {
    if |cs| > 0 {
      var last := cs[|cs| - 1];
      FlattenMoves(cs[..|cs| - 1]);
      JoinMoves(Flatten(cs[..|cs| - 1]), last);
    }
  }

  lemma JoinMoves(front: seq<Verb>, c: Contour)
    requires MovesWhereNeeded(front) && forall j :: 0 <= j < |c.segments| ==> IsSegment(c.segments[j])
    ensures MovesWhereNeeded(front + ContourVerbs(c)) && |ContourVerbs(c)| > 0
  {
    var tail := ContourVerbs(c);
    assert forall j :: 0 <= j < |c.segments| ==> tail[j + 1] == c.segments[j];
    assert forall j :: 0 <= j < |tail| - 1 ==> !tail[j].Close? by {
      assert forall j :: 0 < j < |tail| - 1 ==> tail[j] == c.segments[j - 1];
    }
    var all := front + tail;
    assert tail[0].Move?;
    forall i | |front| <= i < |all| - 1
      ensures !all[i].Close?
    {
      assert all[i] == tail[i - |front|];
    }
    forall i | 0 < i < |all| && all[i - 1].Close?
      ensures all[i].Move?
    {
      if i < |front| {
        assert all[i] == front[i] && all[i - 1] == front[i - 1];
      } else {
        assert all[i] == tail[i - |front|];
      }
    }
  }

  lemma FlattenPush(cs: seq<Contour>, c: Contour)
    ensures Flatten(cs + [c]) == Flatten(cs) + ContourVerbs(c)
  {
    assert (cs + [c])[..|cs|] == cs;
  }

  /** Reads a stream back as contours. */
  lemma {:induction false} Contours(verbs: seq<Verb>) returns (cs: seq<Contour>)
    requires MovesWhereNeeded(verbs)
    ensures OnlySegments(cs) && Flatten(cs) == verbs
    ensures |verbs| > 0 ==> |cs| > 0 && cs[|cs| - 1].closed == verbs[|verbs| - 1].Close?
  {
    if |verbs| == 0 {
      cs := [];
    } else {
      var front, v := verbs[..|verbs| - 1], verbs[|verbs| - 1];
      assert verbs == front + [v];
      var before := Contours(front);
      if v.Move? {
        cs := before + [Contour([], false)];
        FlattenPush(before, Contour([], false));
      } else {
        assert |front| > 0 && front[|front| - 1] == verbs[|verbs| - 2];
        cs := ExtendLast(before, v);
      }
    }
  }

  /** Adds a segment or a Close to the last contour, which is still open. */
  lemma ExtendLast(before: seq<Contour>, v: Verb) returns (cs: seq<Contour>)
    requires |before| > 0 && OnlySegments(before) && !before[|before| - 1].closed && !v.Move?
    ensures |cs| > 0 && OnlySegments(cs) && Flatten(cs) == Flatten(before) + [v]
    ensures cs[|cs| - 1].closed == v.Close?
  {
    var open, c := before[..|before| - 1], before[|before| - 1];
    var c' := if v.Close? then c.(closed := true) else c.(segments := c.segments + [v]);
    cs := open + [c'];
    assert before == open + [c];
    FlattenPush(open, c);
    FlattenPush(open, c');
    assert ContourVerbs(c') == ContourVerbs(c) + [v];
    hide Flatten, ContourVerbs;
    assert forall i :: 0 <= i < |open| ==> cs[i] == before[i];
  }

  /** The two descriptions of legal streams agree. */
  lemma LegalIff(verbs: seq<Verb>)
    ensures Legal(verbs) <==> MovesWhereNeeded(verbs)
  {
    if MovesWhereNeeded(verbs) {
      var cs := Contours(verbs);
    }
    if cs :| OnlySegments(cs) && Flatten(cs) == verbs {
      FlattenMoves(cs);
    }
  }

  /** A legal stream with exactly the points and weights its verbs call for. */
  ghost predicate WellFormed(p: Path) {
    Legal(p.verbs) && |p.pts| == PointCount(p.verbs) && |p.weights| == WeightCount(p.verbs)
  }

  // ----- The iterator

  lemma {:induction false} CountMonotone(verbs: seq<Verb>, i: nat, j: nat)
    requires i <= j <= |verbs|
    ensures PointCount(verbs[..i]) <= PointCount(verbs[..j])
    ensures WeightCount(verbs[..i]) <= WeightCount(verbs[..j])
  {
    if i < j {
      CountMonotone(verbs, i, j - 1);
      assert verbs[..j][..j - 1] == verbs[..j - 1];
    }
  }

  lemma CountStep(verbs: seq<Verb>, k: nat)
    requires k < |verbs|
    ensures PointCount(verbs[..k + 1]) == PointCount(verbs[..k]) + PtsAdvance(verbs[k])
    ensures WeightCount(verbs[..k + 1]) == WeightCount(verbs[..k]) + if verbs[k].Conic? then 1 else 0
  {
    assert verbs[..k + 1][..k] == verbs[..k];
  }

  /** Over a legal stream the iterator never reads outside the arrays: not before the first point, and
      not past the last point or weight. */
  lemma ReadsInside(p: Path, k: nat)
    requires WellFormed(p) && k < |p.verbs|
    ensures 0 <= PointCount(p.verbs[..k]) + PtsBackset(p.verbs[k])
    ensures PointCount(p.verbs[..k]) + PtsBackset(p.verbs[k]) + PtsSeen(p.verbs[k]) <= |p.pts|
    ensures p.verbs[k].Conic? ==> WeightCount(p.verbs[..k]) < |p.weights|
  {
    LegalIff(p.verbs);
    CountStep(p.verbs, k);
    CountMonotone(p.verbs, k + 1, |p.verbs|);
    assert p.verbs[..|p.verbs|] == p.verbs;
    assert p.verbs[0].Move?;
    if k > 0 {
      CountStep(p.verbs, 0);
      CountMonotone(p.verbs, 1, k);
    }
  }

  /** What the iterator yields for one verb. */
  datatype Event = Event(verb: Verb, pts: seq<Point>, weight: seq<real>)

  ghost function EventAt(p: Path, k: nat): (e: Event)
    requires WellFormed(p) && k < |p.verbs|
    ensures e.verb == p.verbs[k] && |e.pts| == PtsSeen(e.verb)
  {
    ReadsInside(p, k);
    var verb := p.verbs[k];
    var start := PointCount(p.verbs[..k]) + PtsBackset(verb);
    var w := WeightCount(p.verbs[..k]);
    Event(verb, p.pts[start..start + PtsSeen(verb)], if verb.Conic? then [p.weights[w]] else [])
  }

  ghost function Trace(p: Path): (events: seq<Event>)
    requires WellFormed(p)
    ensures |events| == |p.verbs|
  {
    seq(|p.verbs|, k requires 0 <= k < |p.verbs| => EventAt(p, k))
  }

  /** Every verb but Move starts where the verb before it ended; the position returned with a Close is that
      of the last point, too. */
  lemma SegmentsConnect(p: Path, k: nat)
    requires WellFormed(p) && k < |p.verbs| && !p.verbs[k].Move?
    ensures k > 0 && !p.verbs[k - 1].Close?
    ensures var before := EventAt(p, k - 1).pts;
            && |before| > 0
            && (IsSegment(p.verbs[k]) ==> EventAt(p, k).pts[0] == before[|before| - 1])
    ensures var before, start := EventAt(p, k - 1).pts, PointCount(p.verbs[..k]) + PtsBackset(p.verbs[k]);
            0 <= start < |p.pts| && p.pts[start] == before[|before| - 1]
  {
    NotFirst(p, k);
    CountStep(p.verbs, k - 1);
    ReadsInside(p, k);
    ReadsInside(p, k - 1);
    hide WellFormed, PointCount, WeightCount;
  }

  lemma NotFirst(p: Path, k: nat)
    requires WellFormed(p) && k < |p.verbs| && !p.verbs[k].Move?
    ensures k > 0 && !p.verbs[k - 1].Close?
  {
    LegalIff(p.verbs);
    hide Legal;
  }

  /** `SkPath::RangeIter`: three cursors into the arrays of one path. */
  class RangeIter {
    const path: Path
    var fVerb: int
    var fPoints: int
    var fWeights: int

    ghost predicate At(k: int)
      reads this
    {
      && 0 <= k <= |path.verbs| && fVerb == k
      && fPoints == PointCount(path.verbs[..k]) && fWeights == WeightCount(path.verbs[..k])
    }

    constructor (path: Path)
      ensures this.path == path && At(0)
    {
      this.path := path;
      fVerb, fPoints, fWeights := 0, 0, 0;
    }

    /** `operator++`. */
    method Advance()
      requires fVerb < |path.verbs| && At(fVerb)
      modifies this
      ensures At(old(fVerb) + 1)
    {
      CountStep(path.verbs, fVerb);
      var verb := path.verbs[fVerb];
      fVerb := fVerb + 1;
      fPoints := fPoints + PtsAdvance(verb);
      if verb.Conic? {
        fWeights := fWeights + 1;
      }
    }

    /** `operator*`: the verb and where its points and weight start. */
    method Current() returns (verb: Verb, points: int, weights: int)
      requires WellFormed(path) && fVerb < |path.verbs| && At(fVerb)
      ensures verb == path.verbs[fVerb]
      ensures 0 <= points <= points + PtsSeen(verb) <= |path.pts| && points < |path.pts|
      ensures !verb.Move? ==> && fVerb > 0 && |EventAt(path, fVerb - 1).pts| > 0
                              && path.pts[points] == EventAt(path, fVerb - 1).pts[|EventAt(path, fVerb - 1).pts| - 1]
      ensures EventAt(path, fVerb).pts == path.pts[points..points + PtsSeen(verb)]
      ensures verb.Conic? ==> 0 <= weights < |path.weights| && EventAt(path, fVerb).weight == [path.weights[weights]]
      ensures !verb.Conic? ==> EventAt(path, fVerb).weight == []
    {
      ReadsInside(path, fVerb);
      verb := path.verbs[fVerb];
      if !verb.Move? {
        SegmentsConnect(path, fVerb);
      }
      var backset := PtsBackset(verb);
      assert fPoints + backset >= 0;
      points, weights := fPoints + backset, fWeights;
    }

    /** The whole iteration, from begin to end: every event of the path, in order. */
    method Walk() returns (events: seq<Event>)
      requires WellFormed(path) && At(0)
      modifies this
      ensures events == Trace(path) && At(|path.verbs|)
    {
      hide WellFormed, EventAt;
      events := [];
      while fVerb < |path.verbs|
        invariant At(fVerb) && |events| == fVerb
        invariant forall k :: 0 <= k < fVerb ==> events[k] == EventAt(path, k)
      {
        var verb, points, weights := Current();
        var pts := path.pts[points..points + PtsSeen(verb)];
        events := events + [Event(verb, pts, if verb.Conic? then [path.weights[weights]] else [])];
        Advance();
      }
    }

    /** At the end of the verbs every point and weight has been consumed. */
    lemma EndOfPath()
      requires WellFormed(path) && At(|path.verbs|)
      ensures fPoints == |path.pts| && fWeights == |path.weights|
    {
      assert path.verbs[..|path.verbs|] == path.verbs;
    }
  }

  // ----- The builder

  datatype IsA = JustMoves | MoreThanMoves

  /** The builder's fields. */
  datatype Build = Build(path: Path, lastMovePoint: Point, lastMoveIndex: int, needsMoveVerb: bool, isA: IsA)

  const FRESH := Build(Path([], [], []), Point(0.0, 0.0), -1, true, JustMoves)

  datatype Command =
    | MoveTo(p: Point)
    | LineTo(p: Point)
    | QuadTo(p1: Point, p2: Point)
    | ConicTo(p1: Point, p2: Point, w: real)
    | CubicTo(p1: Point, p2: Point, p3: Point)
    | CloseContour

  /** Appends a verb with its points and weights. */
  function Push(path: Path, verb: Verb, pts: seq<Point>, weights: seq<real>): Path {
    Path(path.verbs + [verb], path.pts + pts, path.weights + weights)
  }

  function Moved(b: Build, p: Point): Build {
    b.(path := Push(b.path, Move, [p], []), lastMovePoint := p, lastMoveIndex := |b.path.pts|, needsMoveVerb := false)
  }

  /** `ensureMove`: a verb other than Move after a Close, or on an empty path, first reopens the contour
      at the last move point. */
  function Reopened(b: Build): Build {
    var b' := b.(isA := MoreThanMoves);
    if b.needsMoveVerb then Moved(b', b.lastMovePoint) else b'
  }

  function Extended(b: Build, verb: Verb, pts: seq<Point>, weights: seq<real>): Build {
    var b' := Reopened(b);
    b'.(path := Push(b'.path, verb, pts, weights))
  }

  function Apply(b: Build, c: Command): Build {
    match c
    case MoveTo(p) => Moved(b, p)
    case LineTo(p) => Extended(b, Line, [p], [])
    case QuadTo(p1, p2) => Extended(b, Quad, [p1, p2], [])
    case ConicTo(p1, p2, w) => Extended(b, Conic, [p1, p2], [w])
    case CubicTo(p1, p2, p3) => Extended(b, Cubic, [p1, p2, p3], [])
    case CloseContour =>
      if |b.path.verbs| == 0 then b else Extended(b, Close, [], []).(needsMoveVerb := true)
  }

  function Run(commands: seq<Command>): Build {
    if |commands| == 0 then FRESH
    else Apply(Run(commands[..|commands| - 1]), commands[|commands| - 1])
  }

  /** What the builder keeps between calls. */
  ghost predicate Inv(b: Build) {
    && WellFormed(b.path)
    && (b.needsMoveVerb <==> |b.path.verbs| == 0 || b.path.verbs[|b.path.verbs| - 1].Close?)
    && (b.isA.JustMoves? <==> forall v :: v in b.path.verbs ==> v.Move?)
    && (if |b.path.verbs| == 0 then b.lastMoveIndex == -1
        else 0 <= b.lastMoveIndex < |b.path.pts| && b.path.pts[b.lastMoveIndex] == b.lastMovePoint)
  }

  lemma PushKeepsForm(path: Path, verb: Verb, pts: seq<Point>, weights: seq<real>)
    requires WellFormed(path) && |pts| == PtsAdvance(verb) && |weights| == (if verb.Conic? then 1 else 0)
    requires verb.Move? || (|path.verbs| > 0 && !path.verbs[|path.verbs| - 1].Close?)
    ensures WellFormed(Push(path, verb, pts, weights))
  {
    LegalIff(path.verbs);
    LegalIff(path.verbs + [verb]);
    assert (path.verbs + [verb])[..|path.verbs|] == path.verbs;
    hide Legal;
  }

  lemma MoveKeepsInv(b: Build, p: Point)
    requires WellFormed(b.path)
    requires b.isA.JustMoves? ==> forall v :: v in b.path.verbs ==> v.Move?
    ensures WellFormed(Moved(b, p).path)
    ensures Inv(b) ==> Inv(Moved(b, p))
  {
    PushKeepsForm(b.path, Move, [p], []);
    hide WellFormed;
  }

  /** The state between `ensureMove` and the verb it is called for. */
  ghost predicate ReadyToDraw(b: Build) {
    && WellFormed(b.path) && |b.path.verbs| > 0 && !b.path.verbs[|b.path.verbs| - 1].Close?
    && !b.needsMoveVerb && b.isA.MoreThanMoves?
    && 0 <= b.lastMoveIndex < |b.path.pts| && b.path.pts[b.lastMoveIndex] == b.lastMovePoint
  }

  lemma ReopenedIsReady(b: Build)
    requires Inv(b)
    ensures ReadyToDraw(Reopened(b))
  {
    if b.needsMoveVerb {
      PushKeepsForm(b.path, Move, [b.lastMovePoint], []);
    }
    hide WellFormed;
  }

  lemma DrawKeepsInv(b: Build, verb: Verb, pts: seq<Point>, weights: seq<real>)
    requires ReadyToDraw(b)
    requires !verb.Move? && |pts| == PtsAdvance(verb) && |weights| == (if verb.Conic? then 1 else 0)
    ensures Inv(b.(path := Push(b.path, verb, pts, weights), needsMoveVerb := verb.Close?))
  {
    PushKeepsForm(b.path, verb, pts, weights);
    hide WellFormed, PtsAdvance;
    var vs := b.path.verbs;
    assert (vs + [verb])[|vs|] == verb;
  }

  lemma SegmentKeepsInv(b: Build, verb: Verb, pts: seq<Point>, weights: seq<real>)
    requires Inv(b) && !verb.Move? && |pts| == PtsAdvance(verb) && |weights| == (if verb.Conic? then 1 else 0)
    ensures var b' := Extended(b, verb, pts, weights);
            Inv(if verb.Close? then b'.(needsMoveVerb := true) else b')
  {
    ReopenedIsReady(b);
    DrawKeepsInv(Reopened(b), verb, pts, weights);
    hide Inv, WellFormed;
    assert !Reopened(b).needsMoveVerb;
  }

  lemma ApplyInv(b: Build, c: Command)
    requires Inv(b)
    ensures Inv(Apply(b, c))
  {
    hide Inv, Moved, Extended;
    match c
    case MoveTo(p) => InvForm(b); MoveKeepsInv(b, p);
    case LineTo(p) => SegmentKeepsInv(b, Line, [p], []);
    case QuadTo(p1, p2) => SegmentKeepsInv(b, Quad, [p1, p2], []);
    case ConicTo(p1, p2, w) => SegmentKeepsInv(b, Conic, [p1, p2], [w]);
    case CubicTo(p1, p2, p3) => SegmentKeepsInv(b, Cubic, [p1, p2, p3], []);
    case CloseContour => SegmentKeepsInv(b, Close, [], []);
  }

  lemma InvForm(b: Build)
    requires Inv(b)
    ensures WellFormed(b.path) && (b.isA.JustMoves? ==> forall v :: v in b.path.verbs ==> v.Move?)
  {
  }

  /** After any sequence of calls the stream is legal, its points and weights match its verbs, and the
      builder's own fields describe it. */
  lemma {:induction false} RunInv(commands: seq<Command>)
    ensures Inv(Run(commands))
  {
    if |commands| == 0 {
      LegalIff([]);
    } else {
      hide Inv, Apply;
      RunInv(commands[..|commands| - 1]);
      ApplyInv(Run(commands[..|commands| - 1]), commands[|commands| - 1]);
    }
  }

  /** The builder's own close is undocumented.  On an empty path the model does nothing, as `SkPath::close`
      documents, and only there; after a Close it departs from that text, which again promises no effect: like
      every verb, Close goes through `ensureMove`, which reopens the contour first. */
  lemma CloseEffect(b: Build)
    requires Inv(b)
    ensures Apply(b, CloseContour) == b <==> |b.path.verbs| == 0
    ensures |b.path.verbs| > 0 && b.path.verbs[|b.path.verbs| - 1].Close? ==>
              && Apply(b, CloseContour).path.verbs == b.path.verbs + [Move, Close]
              && Apply(b, CloseContour).path.pts == b.path.pts + [b.lastMovePoint]
  {
    hide WellFormed;
    if |b.path.verbs| > 0 {
      assert |Apply(b, CloseContour).path.verbs| > |b.path.verbs|;
    }
  }

  // ----- What the calls draw

  /** A pen that follows the calls by itself: no arrays, no peeking backwards. */
  datatype Pen = Pen(events: seq<Event>, at: Point, start: Point, open: bool)

  function PenMove(pen: Pen, p: Point): Pen {
    Pen(pen.events + [Event(Move, [p], [])], p, p, true)
  }

  /** Drawing without an open contour starts a new one where the last one started. */
  function PenReopen(pen: Pen): Pen {
    if pen.open then pen else PenMove(pen, pen.start)
  }

  function PenSegment(pen: Pen, verb: Verb, pts: seq<Point>, weight: seq<real>): Pen
    requires |pts| > 0
  {
    var pen' := PenReopen(pen);
    Pen(pen'.events + [Event(verb, [pen'.at] + pts, weight)], pts[|pts| - 1], pen'.start, true)
  }

  function PenClose(pen: Pen): Pen {
    if |pen.events| == 0 then pen
    else
      var pen' := PenReopen(pen);
      pen'.(events := pen'.events + [Event(Close, [], [])], open := false)
  }

  function PenApply(pen: Pen, c: Command): Pen {
    match c
    case MoveTo(p) => PenMove(pen, p)
    case LineTo(p) => PenSegment(pen, Line, [p], [])
    case QuadTo(p1, p2) => PenSegment(pen, Quad, [p1, p2], [])
    case ConicTo(p1, p2, w) => PenSegment(pen, Conic, [p1, p2], [w])
    case CubicTo(p1, p2, p3) => PenSegment(pen, Cubic, [p1, p2, p3], [])
    case CloseContour => PenClose(pen)
  }

  function Draw(commands: seq<Command>): Pen {
    if |commands| == 0 then Pen([], Point(0.0, 0.0), Point(0.0, 0.0), false)
    else PenApply(Draw(commands[..|commands| - 1]), commands[|commands| - 1])
  }

  /** The builder's arrays, walked by the iterator, show what the pen drew. */
  ghost predicate Shows(b: Build, pen: Pen) {
    && Inv(b)
    && Trace(b.path) == pen.events
    && pen.open == !b.needsMoveVerb
    && pen.start == b.lastMovePoint
    && (pen.open ==> |b.path.pts| > 0 && pen.at == b.path.pts[|b.path.pts| - 1])
  }

  lemma EventStays(path: Path, verb: Verb, pts: seq<Point>, weights: seq<real>, k: nat)
    requires WellFormed(path) && WellFormed(Push(path, verb, pts, weights)) && k < |path.verbs|
    ensures EventAt(Push(path, verb, pts, weights), k) == EventAt(path, k)
  {
    var path' := Push(path, verb, pts, weights);
    ReadsInside(path, k);
    assert path'.verbs[..k] == path.verbs[..k];
    hide WellFormed, PointCount, WeightCount;
  }

  /** Pushing a verb adds one event to the trace: its start point, where it has one, is the last point
      already there. */
  lemma TracePush(path: Path, verb: Verb, pts: seq<Point>, weights: seq<real>)
    requires WellFormed(path) && WellFormed(Push(path, verb, pts, weights))
    requires |pts| == PtsAdvance(verb) && |weights| == (if verb.Conic? then 1 else 0)
    requires verb.Move? || |path.pts| > 0
    ensures Trace(Push(path, verb, pts, weights))
         == Trace(path) + [Event(verb, if IsSegment(verb) then [path.pts[|path.pts| - 1]] + pts else pts, weights)]
  {
    hide WellFormed, EventAt;
    var path', n := Push(path, verb, pts, weights), |path.verbs|;
    forall k: nat | k < n
      ensures EventAt(path', k) == EventAt(path, k)
    {
      EventStays(path, verb, pts, weights, k);
    }
    NewEvent(path, verb, pts, weights);
  }

  lemma NewEvent(path: Path, verb: Verb, pts: seq<Point>, weights: seq<real>)
    requires WellFormed(path) && WellFormed(Push(path, verb, pts, weights))
    requires |pts| == PtsAdvance(verb) && |weights| == (if verb.Conic? then 1 else 0)
    requires verb.Move? || |path.pts| > 0
    ensures EventAt(Push(path, verb, pts, weights), |path.verbs|)
         == Event(verb, if IsSegment(verb) then [path.pts[|path.pts| - 1]] + pts else pts, weights)
  {
    hide Legal, PointCount, WeightCount, PtsBackset, PtsSeen;
    var path', n := Push(path, verb, pts, weights), |path.verbs|;
    assert path'.verbs[..n] == path.verbs;
    SeenAtEnd(path.pts, verb, pts);
    if verb.Conic? {
      assert path'.weights[|path.weights|] == weights[0];
    }
  }

  lemma SeenAtEnd(front: seq<Point>, verb: Verb, pts: seq<Point>)
    requires |pts| == PtsAdvance(verb) && (verb.Move? || |front| > 0)
    ensures var start := |front| + PtsBackset(verb);
            && 0 <= start <= start + PtsSeen(verb) <= |front + pts|
            && (front + pts)[start..start + PtsSeen(verb)]
               == if IsSegment(verb) then [front[|front| - 1]] + pts else pts
  {
    var start := |front| + PtsBackset(verb);
    var seen := (front + pts)[start..start + PtsSeen(verb)];
    if IsSegment(verb) {
      assert seen == [front[|front| - 1]] + pts;
    } else {
      assert seen == pts;
    }
  }

  lemma ShowsMove(b: Build, pen: Pen, p: Point)
    requires WellFormed(b.path) && Trace(b.path) == pen.events
    ensures WellFormed(Moved(b, p).path) && Trace(Moved(b, p).path) == PenMove(pen, p).events
  {
    PushKeepsForm(b.path, Move, [p], []);
    hide WellFormed, Trace;
    TracePush(b.path, Move, [p], []);
  }

  /** Reopening the contour, when needed, shows what the pen does. */
  lemma ShowsReopen(b: Build, pen: Pen)
    requires Shows(b, pen)
    ensures var b', pen' := Reopened(b), PenReopen(pen);
            && WellFormed(b'.path) && Trace(b'.path) == pen'.events
            && |b'.path.pts| > 0 && pen'.at == b'.path.pts[|b'.path.pts| - 1]
            && |b'.path.verbs| > 0 && !b'.path.verbs[|b'.path.verbs| - 1].Close?
            && pen'.start == b'.lastMovePoint && !b'.needsMoveVerb && pen'.open
  {
    if b.needsMoveVerb {
      ShowsMove(b.(isA := MoreThanMoves), pen, b.lastMovePoint);
    }
    hide WellFormed, Trace;
  }

  lemma ShowsSegment(b: Build, pen: Pen, verb: Verb, pts: seq<Point>, weights: seq<real>)
    requires Shows(b, pen) && IsSegment(verb)
    requires |pts| == PtsAdvance(verb) && |weights| == (if verb.Conic? then 1 else 0)
    ensures Shows(Extended(b, verb, pts, weights), PenSegment(pen, verb, pts, weights))
  {
    hide Inv, WellFormed, Trace, Reopened, PenReopen, Moved, PenMove;
    SegmentKeepsInv(b, verb, pts, weights);
    ShowsReopen(b, pen);
    var b' := Reopened(b);
    PushKeepsForm(b'.path, verb, pts, weights);
    TracePush(b'.path, verb, pts, weights);
  }

  lemma ShowsClose(b: Build, pen: Pen)
    requires Shows(b, pen)
    ensures Shows(Apply(b, CloseContour), PenClose(pen))
  {
    hide Inv, WellFormed, Trace, Reopened, PenReopen;
    ApplyInv(b, CloseContour);
    if |b.path.verbs| == 0 {
      InvForm(b);
    } else {
      ShowsReopen(b, pen);
      PushKeepsForm(Reopened(b).path, Close, [], []);
      TracePush(Reopened(b).path, Close, [], []);
    }
  }

  lemma ShowsApply(b: Build, pen: Pen, c: Command)
    requires Shows(b, pen)
    ensures Shows(Apply(b, c), PenApply(pen, c))
  {
    match c
    case MoveTo(p) =>
      ApplyInv(b, c);
      ShowsMove(b, pen, p);
      hide Inv, WellFormed, Trace;
    case LineTo(p) => hide Shows, Extended, PenSegment; ShowsSegment(b, pen, Line, [p], []);
    case QuadTo(p1, p2) => hide Shows, Extended, PenSegment; ShowsSegment(b, pen, Quad, [p1, p2], []);
    case ConicTo(p1, p2, w) => hide Shows, Extended, PenSegment; ShowsSegment(b, pen, Conic, [p1, p2], [w]);
    case CubicTo(p1, p2, p3) => hide Shows, Extended, PenSegment; ShowsSegment(b, pen, Cubic, [p1, p2, p3], []);
    case CloseContour => hide Shows, Extended, PenSegment; ShowsClose(b, pen);
  }

  /** For every sequence of calls, walking the built path with the iterator gives back exactly what the
      calls drew. */
  lemma {:induction false} BuiltPathShowsDrawing(commands: seq<Command>)
    ensures WellFormed(Run(commands).path)
    ensures Trace(Run(commands).path) == Draw(commands).events
    ensures Shows(Run(commands), Draw(commands))
  {
    if |commands| == 0 {
      LegalIff([]);
    } else {
      var before, c := commands[..|commands| - 1], commands[|commands| - 1];
      BuiltPathShowsDrawing(before);
      ShowsApply(Run(before), Draw(before), c);
      hide Inv, WellFormed, Trace, Apply, PenApply;
    }
  }

  /** `SkPathBuilder`: the fields the calls update, each call proved against its function above. */
  class SkPathBuilder {
    var fPts: seq<Point>
    var fVerbs: seq<Verb>
    var fConicWeights: seq<real>
    var fLastMovePoint: Point
    var fLastMoveIndex: int
    var fNeedsMoveVerb: bool
    var fIsA: IsA

    function State(): Build
      reads this
    {
      Build(Path(fVerbs, fPts, fConicWeights), fLastMovePoint, fLastMoveIndex, fNeedsMoveVerb, fIsA)
    }

    constructor ()
      ensures State() == FRESH
    {
      fPts, fVerbs, fConicWeights := [], [], [];
      fLastMovePoint, fLastMoveIndex, fNeedsMoveVerb, fIsA := Point(0.0, 0.0), -1, true, JustMoves;
    }

    method MoveTo(p: Point)
      modifies this
      ensures State() == Apply(old(State()), Command.MoveTo(p))
    {
      fLastMoveIndex := |fPts|;
      fPts := fPts + [p];
      fVerbs := fVerbs + [Move];
      fLastMovePoint := p;
      fNeedsMoveVerb := false;
    }

    method EnsureMove()
      modifies this
      ensures State() == Reopened(old(State()))
    {
      fIsA := MoreThanMoves;
      if fNeedsMoveVerb {
        MoveTo(fLastMovePoint);
      }
    }

    method LineTo(p: Point)
      modifies this
      ensures State() == Apply(old(State()), Command.LineTo(p))
    {
      EnsureMove();
      fPts := fPts + [p];
      fVerbs := fVerbs + [Line];
    }

    method QuadTo(p1: Point, p2: Point)
      modifies this
      ensures State() == Apply(old(State()), Command.QuadTo(p1, p2))
    {
      EnsureMove();
      fPts := fPts + [p1, p2];
      fVerbs := fVerbs + [Quad];
    }

    method ConicTo(p1: Point, p2: Point, w: real)
      modifies this
      ensures State() == Apply(old(State()), Command.ConicTo(p1, p2, w))
    {
      EnsureMove();
      fPts := fPts + [p1, p2];
      fVerbs := fVerbs + [Conic];
      fConicWeights := fConicWeights + [w];
    }

    method CubicTo(p1: Point, p2: Point, p3: Point)
      modifies this
      ensures State() == Apply(old(State()), Command.CubicTo(p1, p2, p3))
    {
      EnsureMove();
      fPts := fPts + [p1, p2, p3];
      fVerbs := fVerbs + [Cubic];
    }

    method Close()
      modifies this
      ensures State() == Apply(old(State()), CloseContour)
    {
      if |fVerbs| > 0 {
        EnsureMove();
        fVerbs := fVerbs + [Verb.Close];
        fNeedsMoveVerb := true;
      }
    }
  }
}
