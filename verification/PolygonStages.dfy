/** The whole polygon clipper of CropFilter.cpp: trivial accepts and rejects, and the four stages in turn. */
module PolygonStages {
  import opened Basics
  import opened Geometry
  import opened CropLine
  import opened PolygonWalk
  import CP = CropPolygon

  // ----- extents of parts

  function Min(a: real, b: real): real { if b < a then b else a }
  function Max(a: real, b: real): real { if b > a then b else a }

  function Bounds(part: Part): Extent
    requires part != []
  {
    var n := |part|;
    var p := part[n - 1].at;
    if n == 1 then Extent(p.x, p.y, p.x, p.y)
    else
      var b := Bounds(part[..n - 1]);
      Extent(Min(b.xmin, p.x), Min(b.ymin, p.y), Max(b.xmax, p.x), Max(b.ymax, p.y))
  }

  method ExpandToInclude(part: Part) returns (e: Extent)
    requires part != []
    ensures e == Bounds(part)
  {
    e := Extent(part[0].at.x, part[0].at.y, part[0].at.x, part[0].at.y);
    for k := 1 to |part|
      invariant e == Bounds(part[..k])
    {
      assert part[..k + 1][..k] == part[..k];
      var p := part[k].at;
      e := Extent(Min(e.xmin, p.x), Min(e.ymin, p.y), Max(e.xmax, p.x), Max(e.ymax, p.y));
    }
    assert part[..|part|] == part;
  }

  /** A box holds all points of the part and touches a point with each of its sides. */
  ghost predicate Tight(part: Part, e: Extent) {
    && (forall p :: p in part ==> e.Holds(p.at))
    && (exists p :: p in part && p.at.x == e.xmin) && (exists p :: p in part && p.at.y == e.ymin)
    && (exists p :: p in part && p.at.x == e.xmax) && (exists p :: p in part && p.at.y == e.ymax)
  }

  lemma {:induction false} BoundsAreTight(part: Part)
    requires part != []
    ensures Tight(part, Bounds(part))
  {
    var n := |part|;
    if n > 1 {
      BoundsAreTight(part[..n - 1]);
      assert part == part[..n - 1] + [part[n - 1]];
    } else {
      assert part[0] in part;
    }
  }

  const EPSILON := 0.00001

  function Abs(d: real): real { if d < 0.0 then -d else d }

  predicate AtMost(a: real, b: real) { a <= b || Abs(a - b) < EPSILON }

  predicate IsValid(e: Extent) { e.xmin <= e.xmax && e.ymin <= e.ymax }

  predicate ContainsPoint(e: Extent, p: Vec) {
    IsValid(e) && AtMost(e.xmin, p.x) && AtMost(p.x, e.xmax) && AtMost(e.ymin, p.y) && AtMost(p.y, e.ymax)
  }

  predicate Contains(e: Extent, part: Part) {
    forall p :: p in part ==> ContainsPoint(e, p.at)
  }

  /** What the trivial accept admits: a point off the window by less than EPSILON. */
  lemma ContainsIsSlack(e: Extent, p: Vec)
    ensures ContainsPoint(e, p) <==>
            IsValid(e) && e.xmin - EPSILON < p.x < e.xmax + EPSILON && e.ymin - EPSILON < p.y < e.ymax + EPSILON
  {
  }

  predicate Intersects(a: Extent, b: Extent) {
    IsValid(a) && IsValid(b) && !(a.xmax < b.xmin || a.xmin > b.xmax || a.ymax < b.ymin || a.ymin > b.ymax)
  }

  predicate ExtentInsideOrOnLine(e: Extent, s1: Vec, s2: Vec) {
    PointInsideOrOnLine(e.Sw(), s1, s2) && PointInsideOrOnLine(e.Ne(), s1, s2)
  }

  // ----- an extent test decides for the points

  lemma SideReversed(q: Vec, s1: Vec, s2: Vec)
    ensures Side(q, s2, s1) == -Side(q, s1, s2)
  {
    var dx, dy, x, y := s2.x - s1.x, s2.y - s1.y, q.x - s1.x, q.y - s1.y;
    assert q.y - s2.y == y - dy && q.x - s2.x == x - dx;
    CornerTurned(dx, dy, x, y);
  }

  lemma CornerTurned(dx: real, dy: real, x: real, y: real)
    ensures (-dx) * (y - dy) - (-dy) * (x - dx) == -(dx * y - dy * x)
  {
    assert (-dx) * (y - dy) == -(dx * y) + dx * dy;
    assert (-dy) * (x - dx) == -(dy * x) + dx * dy;
  }

  /** What matters of a point for the boundary line of a stage: y for the horizontal ones, x for the others. */
  function Across(q: Vec, stage: nat): real {
    if stage % 2 == 0 then q.y else q.x
  }

  /** The side of a boundary line is a linear function of the coordinate across it. */
  lemma SideIsAcross(e: Extent, stage: nat, q: Vec)
    requires stage < 4
    ensures Side(q, e.Edge(stage).0, e.Edge(stage).1) == Slope(e, stage) * Across(q, stage) - Offset(e, stage)
  {
    var w, h := e.xmax - e.xmin, e.ymax - e.ymin;
    var south, east, north, west := q.y - e.ymin, e.xmax - q.x, e.ymax - q.y, q.x - e.xmin;
    SidesOfEdges(e, q, w, h, south, east, north, west);
    Split(w, q.y, e.ymin);
    Split(h, q.x, e.xmin);
    Split(-h, q.x, e.xmax);
    Split(-w, q.y, e.ymax);
    Flip(h, east);
    Flip(w, north);
  }

  lemma Split(k: real, a: real, b: real)
    ensures k * (a - b) == k * a - k * b
  {
  }

  lemma Flip(k: real, a: real)
    ensures k * a == (-k) * (-a)
  {
  }

  ghost function Slope(e: Extent, stage: nat): real {
    match stage
    case 0 => e.xmax - e.xmin
    case 1 => -(e.ymax - e.ymin)
    case 2 => -(e.xmax - e.xmin)
    case _ => e.ymax - e.ymin
  }

  ghost function Offset(e: Extent, stage: nat): real {
    match stage
    case 0 => Slope(e, 0) * e.ymin
    case 1 => Slope(e, 1) * e.xmax
    case 2 => Slope(e, 2) * e.ymax
    case _ => Slope(e, stage) * e.xmin
  }

  lemma LinearBetween(k: real, a: real, x: real, b: real)
    requires a <= x <= b
    ensures k * a <= k * x <= k * b || k * b <= k * x <= k * a
  {
    if k >= 0.0 {
      assert k * (x - a) >= 0.0 && k * (b - x) >= 0.0;
    } else {
      assert k * (x - a) <= 0.0 && k * (b - x) <= 0.0;
    }
    Split(k, x, a);
    Split(k, b, x);
  }

  lemma SideBetween(e: Extent, stage: nat, a: Vec, q: Vec, b: Vec)
    requires stage < 4 && a.x <= q.x <= b.x && a.y <= q.y <= b.y
    ensures var (s1, s2) := e.Edge(stage);
            || Side(a, s1, s2) <= Side(q, s1, s2) <= Side(b, s1, s2)
            || Side(b, s1, s2) <= Side(q, s1, s2) <= Side(a, s1, s2)
  {
    hide Side, Slope, Offset, Across;
    var k := Slope(e, stage);
    var ma, mq, mb := k * Across(a, stage), k * Across(q, stage), k * Across(b, stage);
    AcrossBetween(a, q, b, stage);
    LinearBetween(k, Across(a, stage), Across(q, stage), Across(b, stage));
    SideIsProduct(e, stage, a, ma);
    SideIsProduct(e, stage, q, mq);
    SideIsProduct(e, stage, b, mb);
  }

  lemma AcrossBetween(a: Vec, q: Vec, b: Vec, stage: nat)
    requires a.x <= q.x <= b.x && a.y <= q.y <= b.y
    ensures Across(a, stage) <= Across(q, stage) <= Across(b, stage)
  {
  }

  lemma SideIsProduct(e: Extent, stage: nat, q: Vec, m: real)
    requires stage < 4 && m == Slope(e, stage) * Across(q, stage)
    ensures Side(q, e.Edge(stage).0, e.Edge(stage).1) == m - Offset(e, stage)
  {
    hide Side, Slope, Offset;
    SideIsAcross(e, stage, q);
  }

  /** Some point of the part is on the same side as a corner of its box. */
  lemma CornerIsMatched(part: Part, b: Extent, window: Extent, stage: nat, high: bool) returns (p: GeoPoint)
    requires Tight(part, b) && stage < 4
    ensures var (s1, s2) := window.Edge(stage);
            p in part && Side(p.at, s1, s2) == Side(if high then b.Ne() else b.Sw(), s1, s2)
  {
    p := Touching(part, b, stage, high);
    SideIsAcross(window, stage, p.at);
    SideIsAcross(window, stage, if high then b.Ne() else b.Sw());
  }

  /** The test of the two corners is exact: it accepts just when all the points are inside the line, and the
      test with the line reversed rejects just when none is strictly inside. */
  lemma ExtentDecides(part: Part, window: Extent, stage: nat)
    requires part != [] && stage < 4
    ensures var (s1, s2) := window.Edge(stage);
            && (ExtentInsideOrOnLine(Bounds(part), s1, s2) <==> forall p :: p in part ==> Side(p.at, s1, s2) >= 0.0)
            && (ExtentInsideOrOnLine(Bounds(part), s2, s1) <==> forall p :: p in part ==> Side(p.at, s1, s2) <= 0.0)
  {
    var (s1, s2) := window.Edge(stage);
    var b := Bounds(part);
    BoundsAreTight(part);
    SideReversed(b.Sw(), s1, s2);
    SideReversed(b.Ne(), s1, s2);
    hide Side;
    var low := CornerIsMatched(part, b, window, stage, false);
    var high := CornerIsMatched(part, b, window, stage, true);
    forall p | p in part
      ensures ExtentInsideOrOnLine(b, s1, s2) ==> Side(p.at, s1, s2) >= 0.0
      ensures ExtentInsideOrOnLine(b, s2, s1) ==> Side(p.at, s1, s2) <= 0.0
    {
      assert b.Holds(p.at);
      SideBetween(window, stage, b.Sw(), p.at, b.Ne());
    }
  }

  lemma Touching(part: Part, b: Extent, stage: nat, high: bool) returns (p: GeoPoint)
    requires Tight(part, b)
    ensures p in part && Across(p.at, stage) == Across(if high then b.Ne() else b.Sw(), stage)
  {
    if stage % 2 == 0 {
      p :| p in part && p.at.y == if high then b.ymax else b.ymin;
    } else {
      p :| p in part && p.at.x == if high then b.xmax else b.xmin;
    }
  }

  // ----- one part at one boundary line

  datatype Prepared = Undefined | Dropped | Kept(part: Part) | Cut(ring: CP.CutRing)

  /** The ring a part becomes when it is closed and walked along a boundary line. */
  function RingOf(part: Part, s1: Vec, s2: Vec, stage: nat): CP.CutRing
    requires stage < 4 && part != []
  {
    var t := Walk(part + [part[0]], s1, s2);
    WalkInRange(part + [part[0]], s1, s2);
    CP.CutRing(t.working, t.crossings, SpatialOrder(t, |t.crossings|, stage))
  }

  /** What one stage makes of a part: undefined where scrubbing empties it, otherwise dropped, passed on as it
      is, or a ring to be cut. */
  function Prepare(input: Part, window: Extent, stage: nat): Prepared
    requires stage < 4
  {
    var (s1, s2) := window.Edge(stage);
    match Scrubbed(input)
    case None => Undefined
    case Some(part) =>
      ScrubDefined(input);
      if |part| < 3 then Dropped
      else if ExtentInsideOrOnLine(Bounds(part), s1, s2) then Kept(part)
      else if !Intersects(window, Bounds(part)) || ExtentInsideOrOnLine(Bounds(part), s2, s1) then Dropped
      else if RingOf(part, s1, s2, stage).spatial == [] then Kept(part + [part[0]])
      else Cut(RingOf(part, s1, s2, stage))
  }

  lemma {:induction false} WalkKeepsPoints(ring: Part, s1: Vec, s2: Vec)
    ensures forall p :: p in ring ==> p in Walk(ring, s1, s2).working
  {
    hide GetIsectPoint, Inside;
    if ring != [] {
      WalkKeepsPoints(ring[..|ring| - 1], s1, s2);
      assert ring == ring[..|ring| - 1] + [ring[|ring| - 1]];
    }
  }

  lemma AlternatingSpaced(t: Trail, s1: Vec, s2: Vec)
    requires Alternating(t, s1, s2)
    ensures Spaced(t.crossings)
  {
  }

  /** A closed part with points on both sides of a line is cut by it. */
  lemma RingIsWalked(part: Part, s1: Vec, s2: Vec, stage: nat)
    requires stage < 4 && part != []
    ensures var c := RingOf(part, s1, s2, stage);
            && (c.trav != [] ==> CP.Walked(c, s1, s2))
            && (c.trav == [] <==> c.spatial == [])
            && (c.trav == [] ==> forall p, q :: p in part && q in part ==> Inside(p, s1, s2) == Inside(q, s1, s2))
  {
    hide Inside, Walk, Alternating;
    var ring := part + [part[0]];
    var t := Walk(ring, s1, s2);
    WalkAlternates(ring, s1, s2);
    WalkInRange(ring, s1, s2);
    SpatialOrderSorts(t, |t.crossings|, stage);
    assert t.crossings[..|t.crossings|] == t.crossings;
    AlternatingSpaced(t, s1, s2);
    if t.crossings != [] {
      ClosedWalkIsEven(t, s1, s2);
    } else {
      WalkKeepsPoints(ring, s1, s2);
      forall p | p in part
        ensures Inside(p, s1, s2) == Inside(t.working[0], s1, s2)
      {
        assert p in ring;
        var j :| 0 <= j < |t.working| && t.working[j] == p;
        StartOnOneSide(t, j, s1, s2);
      }
    }
  }

  /** What comes out of the preparation: the branch for a ring without crossings is never taken, a part kept is
      inside the line, a part dropped has no three points or a vertex outside and either bounds that miss the window or
      no vertex strictly inside the line, and a ring to be cut comes from a closed walk. */
  lemma PrepareDecides(input: Part, window: Extent, stage: nat)
    requires stage < 4
    ensures var (s1, s2) := window.Edge(stage);
            match Prepare(input, window, stage)
            case Undefined => forall p, q :: p in input && q in input ==> p == q
            case Dropped =>
              && Scrubbed(input).Some?
              && var part := Scrubbed(input).value;
                 || |part| < 3
                 || ((exists p :: p in part && Side(p.at, s1, s2) < 0.0)
                     && (!Intersects(window, Bounds(part)) || forall p :: p in part ==> Side(p.at, s1, s2) <= 0.0))
            case Kept(part) =>
              Scrubbed(input) == Some(part) && |part| >= 3 && forall p :: p in part ==> Inside(p, s1, s2)
            case Cut(c) =>
              && CP.Walked(c, s1, s2) && Scrubbed(input).Some? && |Scrubbed(input).value| >= 3
              && c == RingOf(Scrubbed(input).value, s1, s2, stage)
  {
    var (s1, s2) := window.Edge(stage);
    ScrubDefined(input);
    hide Side, CP.Walked, RingOf, Bounds, ExtentInsideOrOnLine, Intersects, Inside;
    match Scrubbed(input) {
      case None =>
      case Some(part) =>
        if |part| >= 3 {
          ExtentDecides(part, window, stage);
          RingIsWalked(part, s1, s2, stage);
          BySide(part, s1, s2);
        }
    }
  }

  lemma BySide(part: Part, s1: Vec, s2: Vec)
    ensures forall p :: p in part ==> (Inside(p, s1, s2) <==> Side(p.at, s1, s2) >= 0.0)
  {
    hide Side;
  }

  function StagePart(input: Part, window: Extent, stage: nat): Option<seq<Part>>
    requires stage < 4
  {
    PrepareDecides(input, window, stage);
    match Prepare(input, window, stage)
    case Undefined => None
    case Dropped => Some([])
    case Kept(part) => Some([part])
    case Cut(c) => Some(CP.Rendered(c, CP.Parts(c)))
  }

  function StageParts(inputs: seq<Part>, window: Extent, stage: nat): Option<seq<Part>>
    requires stage < 4
  {
    if inputs == [] then Some([])
    else
      match StageParts(inputs[..|inputs| - 1], window, stage)
      case None => None
      case Some(done) =>
        match StagePart(inputs[|inputs| - 1], window, stage)
        case None => None
        case Some(more) => Some(done + more)
  }

  /** The parts after the first k stages. */
  function Stages(part: Part, window: Extent, k: nat): Option<seq<Part>>
    requires k <= 4
  {
    if k == 0 then Some([part])
    else
      match Stages(part, window, k - 1)
      case None => None
      case Some(parts) => StageParts(parts, window, k - 1)
  }

  /** Rejected leaves the outputs alone; Undefined is reached only by scrubbing a part of equal points. */
  datatype Outcome = Rejected | Cropped(parts: seq<Part>) | Undetermined

  function Crop(part: Part, window: Extent): Outcome {
    if |part| < 3 then Rejected
    else if Contains(window, part) then Cropped([part])
    else
      match Stages(part, window, 4)
      case None => Undetermined
      case Some(parts) => Cropped(parts)
  }

  // ----- the clipper as the source performs it

  method CropAgainstLine(input: Part, window: Extent, stage: nat) returns (outputs: Option<seq<Part>>)
    requires stage < 4
    ensures outputs == StagePart(input, window, stage)
  {
    hide Walk, SpatialOrder, Bounds, CP.Walked, Intersects, ExtentInsideOrOnLine, CP.Parts, CP.Rendered;
    var (s1, s2) := window.Edge(stage);
    var scrubbed := ScrubPart(input);
    if scrubbed == None {
      return None;
    }
    var part := scrubbed.value;
    ScrubDefined(input);
    if |part| < 3 {
      return Some([]);
    }
    var inputExtent := ExpandToInclude(part);
    if ExtentInsideOrOnLine(inputExtent, s1, s2) {
      return Some([part]);
    }
    if !Intersects(window, inputExtent) || ExtentInsideOrOnLine(inputExtent, s2, s1) {
      return Some([]);
    }
    var trail, spatialOrder := WalkRing(part + [part[0]], s1, s2, stage);
    var ring := CP.CutRing(trail.working, trail.crossings, spatialOrder);
    assert ring == RingOf(part, s1, s2, stage);
    if |spatialOrder| == 0 {
      return Some([part + [part[0]]]);
    }
    PrepareDecides(input, window, stage);
    CutIsValid(ring, s1, s2);
    var parts := CP.TraverseParts(ring);
    return Some(parts);
  }

  lemma CutIsValid(c: CP.CutRing, s1: Vec, s2: Vec)
    requires CP.Walked(c, s1, s2)
    ensures c.Valid()
  {
  }

  method CropStage(inputs: seq<Part>, window: Extent, stage: nat) returns (outputs: Option<seq<Part>>)
    requires stage < 4
    ensures outputs == StageParts(inputs, window, stage)
  {
    hide StagePart;
    var done: seq<Part> := [];
    for k := 0 to |inputs|
      invariant StageParts(inputs[..k], window, stage) == Some(done)
    {
      assert inputs[..k + 1][..k] == inputs[..k];
      var more := CropAgainstLine(inputs[k], window, stage);
      if more == None {
        StagesStop(inputs, window, stage, k + 1);
        return None;
      }
      done := done + more.value;
    }
    assert inputs[..|inputs|] == inputs;
    return Some(done);
  }

  /** What is undefined for some of the parts is undefined for all of them together. */
  lemma {:induction false} StagesStop(inputs: seq<Part>, window: Extent, stage: nat, k: nat)
    requires stage < 4 && k <= |inputs| && StageParts(inputs[..k], window, stage) == None
    ensures StageParts(inputs, window, stage) == None
    decreases |inputs|
  {
    hide StagePart;
    if k < |inputs| {
      assert inputs[..|inputs| - 1][..k] == inputs[..k];
      StagesStop(inputs[..|inputs| - 1], window, stage, k);
    } else {
      assert inputs[..k] == inputs;
    }
  }

  method CropPolygonPart(initialInput: Part, window: Extent) returns (outcome: Outcome)
    ensures outcome == Crop(initialInput, window)
  {
    hide StageParts;
    if |initialInput| < 3 {
      return Rejected;
    }
    if Contains(window, initialInput) {
      return Cropped([initialInput]);
    }
    var inputs := [initialInput];
    for stage := 0 to 4
      invariant Stages(initialInput, window, stage) == Some(inputs)
    {
      var outputs := CropStage(inputs, window, stage);
      if outputs == None {
        StagesUndefined(initialInput, window, stage + 1);
        return Undetermined;
      }
      inputs := outputs.value;
    }
    return Cropped(inputs);
  }

  lemma {:induction false} StagesUndefined(part: Part, window: Extent, k: nat)
    requires k <= 4 && Stages(part, window, k) == None
    ensures Stages(part, window, 4) == None
    decreases 4 - k
  {
    hide StageParts;
    if k < 4 {
      StagesUndefined(part, window, k + 1);
    }
  }

  // ----- the output is inside the window

  ghost predicate AllInside(parts: seq<Part>, window: Extent, stage: nat)
    requires stage < 4
  {
    forall part, p :: part in parts && p in part ==> InsideEdge(p.at, window, stage)
  }

  /** The rings cut at a stage all begin, in spatial order, with an entry. */
  ghost predicate EntriesLead(parts: seq<Part>, window: Extent, stage: nat)
    requires stage < 4
  {
    forall part :: part in parts ==>
      var (s1, s2) := window.Edge(stage);
      PrepareDecides(part, window, stage);
      Prepare(part, window, stage).Cut? ==> CP.StartsWithEntry(Prepare(part, window, stage).ring, s1, s2)
  }

  lemma {:induction false} RenderedIn(c: CP.CutRing, parts: seq<CP.Finished>, part: Part)
    requires c.Valid() && part in CP.Rendered(c, parts)
    ensures exists f :: f in parts && part == CP.Points(c, f)
  {
    hide CP.Points, c.Valid;
    var n := |parts|;
    if part == CP.Points(c, parts[n - 1]) {
      assert parts[n - 1] in parts;
    } else {
      RenderedIn(c, parts[..n - 1], part);
      var f :| f in parts[..n - 1] && part == CP.Points(c, f);
      assert f in parts;
    }
  }

  /** One stage brings a part inside its line when the ring cut starts with an entry. */
  lemma StagePartInside(input: Part, window: Extent, stage: nat)
    requires stage < 4 && EntriesLead([input], window, stage) && StagePart(input, window, stage).Some?
    ensures AllInside(StagePart(input, window, stage).value, window, stage)
  {
    var (s1, s2) := window.Edge(stage);
    PrepareDecides(input, window, stage);
    assert input in [input];
    if Prepare(input, window, stage).Cut? {
      var c := Prepare(input, window, stage).ring;
      CutIsValid(c, s1, s2);
      CP.PartsInsideExactlyAfterEntry(c, s1, s2);
      hide Prepare, CP.Parts, CP.Walked, Inside, CP.Points, CP.StartsWithEntry, c.Valid, Side;
      forall part, p | part in CP.Rendered(c, CP.Parts(c)) && p in part
        ensures Inside(p, s1, s2)
      {
        RenderedIn(c, CP.Parts(c), part);
      }
      InsideIsEdge(CP.Rendered(c, CP.Parts(c)), window, stage);
    } else {
      hide Prepare, Inside, Side;
      InsideIsEdge(StagePart(input, window, stage).value, window, stage);
    }
  }

  lemma InsideIsEdge(parts: seq<Part>, window: Extent, stage: nat)
    requires stage < 4
    requires var (s1, s2) := window.Edge(stage); forall part, p :: part in parts && p in part ==> Inside(p, s1, s2)
    ensures AllInside(parts, window, stage)
  {
    hide Side;
  }

  /** A stage makes no points outside a line that its input is inside of. */
  lemma StagePartStaysInside(input: Part, window: Extent, stage: nat, edge: nat)
    requires stage < 4 && edge < 4 && AllInside([input], window, edge) && StagePart(input, window, stage).Some?
    ensures AllInside(StagePart(input, window, stage).value, window, edge)
  {
    var (s1, s2) := window.Edge(stage);
    var (r1, r2) := window.Edge(edge);
    PrepareDecides(input, window, stage);
    ScrubDefined(input);
    assert forall p :: p in input ==> Inside(p, r1, r2) by { assert input in [input]; }
    if Prepare(input, window, stage).Cut? {
      var c := Prepare(input, window, stage).ring;
      var part := Scrubbed(input).value;
      CutIsValid(c, s1, s2);
      hide CP.Walked, CP.Parts, Side, Prepare, Inside;
      assert forall p :: p in part ==> p in input;
      WalkStaysInside(part + [part[0]], s1, s2, r1, r2);
      forall out, p | out in CP.Rendered(c, CP.Parts(c)) && p in out
        ensures Inside(p, r1, r2)
      {
        RenderedIn(c, CP.Parts(c), out);
        var f :| f in CP.Parts(c) && out == CP.Points(c, f);
        CP.PartsShaped(c, f);
        CP.RunsFromRing(c, f.runs);
        assert p in c.working;
      }
      InsideIsEdge(CP.Rendered(c, CP.Parts(c)), window, edge);
    } else {
      hide Prepare, Inside, Side;
      InsideIsEdge(StagePart(input, window, stage).value, window, edge);
    }
  }

  lemma {:induction false} StageInside(inputs: seq<Part>, window: Extent, stage: nat)
    requires stage < 4 && EntriesLead(inputs, window, stage) && StageParts(inputs, window, stage).Some?
    ensures AllInside(StageParts(inputs, window, stage).value, window, stage)
  {
    hide InsideEdge, StagePart, Prepare;
    if inputs != [] {
      var last := inputs[|inputs| - 1];
      StageInside(inputs[..|inputs| - 1], window, stage);
      assert last in inputs;
      StagePartInside(last, window, stage);
    }
  }

  lemma {:induction false} StageStaysInside(inputs: seq<Part>, window: Extent, stage: nat, edge: nat)
    requires stage < 4 && edge < 4 && AllInside(inputs, window, edge) && StageParts(inputs, window, stage).Some?
    ensures AllInside(StageParts(inputs, window, stage).value, window, edge)
  {
    hide InsideEdge, StagePart;
    if inputs != [] {
      var last := inputs[|inputs| - 1];
      StageStaysInside(inputs[..|inputs| - 1], window, stage, edge);
      assert last in inputs;
      StagePartStaysInside(last, window, stage, edge);
    }
  }

  /** Every ring cut on the way through the four stages begins, in spatial order, with an entry. */
  ghost predicate AlwaysEntering(part: Part, window: Extent, k: nat)
    requires k <= 4
  {
    forall stage :: 0 <= stage < k ==>
      match Stages(part, window, stage)
      case None => true
      case Some(parts) => EntriesLead(parts, window, stage)
  }

  lemma {:induction false} StagesInside(part: Part, window: Extent, k: nat)
    requires k <= 4 && AlwaysEntering(part, window, k) && Stages(part, window, k).Some?
    ensures forall edge :: 0 <= edge < k ==> AllInside(Stages(part, window, k).value, window, edge)
  {
    hide StageParts, InsideEdge, EntriesLead, AllInside;
    if k > 0 {
      StagesInside(part, window, k - 1);
      var parts := Stages(part, window, k - 1).value;
      StageInside(parts, window, k - 1);
      forall edge | 0 <= edge < k - 1
        ensures AllInside(Stages(part, window, k).value, window, edge)
      {
        StageStaysInside(parts, window, k - 1, edge);
      }
    }
  }

  /** Every vertex of every part cropped is inside all four boundary lines when every ring cut begins with an
      entry, but for the slack of the trivial accept; then it is within EPSILON of the window. */
  lemma CropStaysInWindow(part: Part, window: Extent)
    requires AlwaysEntering(part, window, 4) && Crop(part, window).Cropped?
    ensures forall out, p :: out in Crop(part, window).parts && p in out ==>
              if Contains(window, part) then ContainsPoint(window, p.at) else InsideEdges(p.at, window)
  {
    hide AlwaysEntering, Stages, InsideEdge;
    if !Contains(window, part) {
      StagesInside(part, window, 4);
      forall out, p | out in Crop(part, window).parts && p in out
        ensures InsideEdges(p.at, window)
      {
        var parts := Stages(part, window, 4).value;
        assert AllInside(parts, window, 0) && AllInside(parts, window, 1);
        assert AllInside(parts, window, 2) && AllInside(parts, window, 3);
      }
    }
  }

  // ----- where the first crossing is an exit

  lemma TwoCrossings(c: CP.CutRing)
    requires c.Valid() && |c.trav| == 2
    ensures CP.Parts(c) == [CP.Finished([0], None)]
  {
    c.FirstIsFirst();
    c.ExitsAreNotFirst(1);
    assert c.At(0) == c.spatial[0] && c.Order(c.At(0)) == 0;
    assert CP.Woven(c, 0) == CP.Loom(CP.Piece([], 0), [], [], true);
    hide CP.IndexOf, c.Valid;
    assert CP.Woven(c, 1) == CP.Weave(c, CP.Woven(c, 0), 0);
    assert CP.Enter(c, CP.Woven(c, 0), 0) == (CP.Piece([], c.At(0)), []);
    assert c.Order(c.At(1)) == c.Order(c.At(0)) + 1;
    assert [] + [0] == [0];
    assert CP.Woven(c, 1).outputs == [CP.Finished([0], None)] && CP.Woven(c, 1).stack == [];
  }

  const UNIT_WINDOW := Extent(0.0, 0.0, 1.0, 1.0)

  function Flat(x: real, y: real): GeoPoint { GeoPoint(Vec(x, y, 0.0), 2) }

  /** A triangle given clockwise across the southern side of a window. */
  const CLOCKWISE := [Flat(0.2, -1.0), Flat(0.5, 1.0), Flat(0.8, -1.0)]

  const CROSSING_IN := GeoPoint(Vec(0.35, 0.0, 0.0), 3)
  const CROSSING_OUT := GeoPoint(Vec(0.65, 0.0, 0.0), 3)

  lemma ClockwiseCrossings()
    ensures var (s1, s2) := UNIT_WINDOW.Edge(0);
            && GetIsectPoint(CLOCKWISE[0], CLOCKWISE[1], s1, s2) == Some(CROSSING_IN)
            && GetIsectPoint(CLOCKWISE[1], CLOCKWISE[2], s1, s2) == Some(CROSSING_OUT)
            && !Inside(CLOCKWISE[0], s1, s2) && Inside(CLOCKWISE[1], s1, s2) && !Inside(CLOCKWISE[2], s1, s2)
  {
    var (s1, s2) := UNIT_WINDOW.Edge(0);
    var (a, b, c) := (Flat(0.2, -1.0), Flat(0.5, 1.0), Flat(0.8, -1.0));
    assert IsectDenominator(a.at, b.at, s1, s2) == -2.0 && IsectNumerator(a.at, s1, s2) == -1.0;
    assert IsectDenominator(b.at, c.at, s1, s2) == 2.0 && IsectNumerator(b.at, s1, s2) == 1.0;
  }

  lemma ClockwiseOrder()
    ensures var t := Trail([CLOCKWISE[0], CROSSING_IN, CLOCKWISE[1], CROSSING_OUT, CLOCKWISE[2], CLOCKWISE[0]], [1, 3]);
            SpatialOrder(t, 2, 0) == [3, 1]
  {
    var t := Trail([CLOCKWISE[0], CROSSING_IN, CLOCKWISE[1], CROSSING_OUT, CLOCKWISE[2], CLOCKWISE[0]], [1, 3]);
    assert SpatialOrder(t, 0, 0) == [];
    assert SpatialOrder(t, 1, 0) == [1];
  }

  lemma ClockwiseRing()
    ensures var (s1, s2) := UNIT_WINDOW.Edge(0);
            var ring := RingOf(CLOCKWISE, s1, s2, 0);
            && ring.working == [CLOCKWISE[0], CROSSING_IN, CLOCKWISE[1], CROSSING_OUT, CLOCKWISE[2], CLOCKWISE[0]]
            && ring.trav == [1, 3] && ring.spatial == [3, 1]
  {
    hide GetIsectPoint, Inside, Walk, SpatialOrder;
    var (s1, s2) := UNIT_WINDOW.Edge(0);
    ClockwiseCrossings();
    TriangleWalk(CLOCKWISE[0], CLOCKWISE[1], CLOCKWISE[2], CROSSING_IN, CROSSING_OUT, s1, s2);
    assert CLOCKWISE == [CLOCKWISE[0], CLOCKWISE[1], CLOCKWISE[2]];
    ClockwiseOrder();
  }

  /** Walking a triangle whose second vertex alone is inside. */
  lemma TriangleWalk(a: GeoPoint, b: GeoPoint, c: GeoPoint, x1: GeoPoint, x2: GeoPoint, s1: Vec, s2: Vec)
    requires !Inside(a, s1, s2) && Inside(b, s1, s2) && !Inside(c, s1, s2)
    requires GetIsectPoint(a, b, s1, s2) == Some(x1) && GetIsectPoint(b, c, s1, s2) == Some(x2)
    ensures Walk([a, b, c] + [a], s1, s2) == Trail([a, x1, b, x2, c, a], [1, 3])
  {
    hide GetIsectPoint, Inside, Walk;
    WalkOne([a], s1, s2);
    WalkNext([a], b, s1, s2);
    assert [a] + [b] == [a, b];
    assert Walk([a, b], s1, s2) == Trail([a, x1, b], [1]);
    WalkNext([a, b], c, s1, s2);
    assert [a, b] + [c] == [a, b, c];
    assert Walk([a, b, c], s1, s2) == Trail([a, x1, b, x2, c], [1, 3]);
    WalkNext([a, b, c], a, s1, s2);
  }

  lemma WalkNext(ring: Part, p: GeoPoint, s1: Vec, s2: Vec)
    requires ring != []
    ensures var (t, q) := (Walk(ring, s1, s2), ring[|ring| - 1]);
            Walk(ring + [p], s1, s2) ==
            if Inside(q, s1, s2) != Inside(p, s1, s2) && GetIsectPoint(q, p, s1, s2).Some? then
              Trail(t.working + [GetIsectPoint(q, p, s1, s2).value] + [p], t.crossings + [|t.working|])
            else Trail(t.working + [p], t.crossings)
  {
    hide GetIsectPoint, Inside;
    assert (ring + [p])[..|ring|] == ring;
  }

  lemma RenderedOne(c: CP.CutRing, f: CP.Finished)
    requires c.Valid()
    ensures CP.Rendered(c, [f]) == [CP.Points(c, f)]
  {
    CP.RenderedAppend(c, [], f);
    assert [] + [f] == [f];
  }

  lemma InsideEdgeIsInside(p: GeoPoint, window: Extent, stage: nat)
    requires stage < 4
    ensures InsideEdge(p.at, window, stage) == Inside(p, window.Edge(stage).0, window.Edge(stage).1)
  {
    hide Side;
  }

  lemma ClockwiseBounds()
    ensures Bounds(CLOCKWISE) == Extent(0.2, -1.0, 0.8, 1.0) && Scrubbed(CLOCKWISE) == Some(CLOCKWISE)
  {
    assert CLOCKWISE[..2] == [CLOCKWISE[0], CLOCKWISE[1]] && CLOCKWISE[..2][..1] == [CLOCKWISE[0]];
  }

  lemma ClockwiseIsCut()
    ensures var (s1, s2) := UNIT_WINDOW.Edge(0);
            var c := RingOf(CLOCKWISE, s1, s2, 0);
            && Prepare(CLOCKWISE, UNIT_WINDOW, 0) == Cut(c) && CP.Walked(c, s1, s2)
            && |c.trav| == 2 && !CP.StartsWithEntry(c, s1, s2)
  {
    var (s1, s2) := UNIT_WINDOW.Edge(0);
    var b := Extent(0.2, -1.0, 0.8, 1.0);
    ClockwiseBounds();
    assert !ExtentInsideOrOnLine(b, s1, s2) && !ExtentInsideOrOnLine(b, s2, s1) && Intersects(UNIT_WINDOW, b);
    assert !Inside(CLOCKWISE[0], s1, s2);
    hide CP.Walked, RingOf, Bounds, Walk, SpatialOrder, ExtentInsideOrOnLine, Intersects, Inside, Scrubbed;
    ClockwiseRing();
    RingIsWalked(CLOCKWISE, s1, s2, 0);
    CutIsValid(RingOf(CLOCKWISE, s1, s2, 0), s1, s2);
  }

  lemma CutGivesParts(input: Part, window: Extent, stage: nat, c: CP.CutRing)
    requires stage < 4 && c.Valid() && Prepare(input, window, stage) == Cut(c)
    ensures StagePart(input, window, stage) == Some(CP.Rendered(c, CP.Parts(c)))
  {
    hide Prepare, CP.Parts, CP.Rendered;
  }

  /** A ring with two crossings, the first of them in spatial order an exit, leaves a stage as a part with a
      vertex outside the line. */
  lemma ExitFirstKeepsOutside(input: Part, window: Extent, stage: nat, c: CP.CutRing)
    requires stage < 4 && Prepare(input, window, stage) == Cut(c)
    requires var (s1, s2) := window.Edge(stage);
             CP.Walked(c, s1, s2) && |c.trav| == 2 && !CP.StartsWithEntry(c, s1, s2)
    ensures var r := StagePart(input, window, stage);
            r.Some? && exists out, p :: out in r.value && p in out && !InsideEdge(p.at, window, stage)
  {
    var (s1, s2) := window.Edge(stage);
    CutIsValid(c, s1, s2);
    CutGivesParts(input, window, stage, c);
    hide CP.Walked, Inside, CP.Points, CP.StartsWithEntry, Prepare, c.Valid, Side, StagePart;
    TwoCrossings(c);
    CP.PartsInsideExactlyAfterEntry(c, s1, s2);
    var f, p :| f in CP.Parts(c) && p in CP.Points(c, f) && !Inside(p, s1, s2);
    RenderedOne(c, f);
    assert CP.Points(c, f) in [CP.Points(c, f)];
    InsideEdgeIsInside(p, window, stage);
  }

  /** A part inside a line goes through its stage as it is. */
  lemma InsideIsKept(part: Part, window: Extent, stage: nat)
    requires stage < 4 && |part| >= 3 && part[0] != part[|part| - 1]
    requires forall p :: p in part ==> InsideEdge(p.at, window, stage)
    ensures StagePart(part, window, stage) == Some([part]) && StageParts([part], window, stage) == Some([part])
  {
    var (s1, s2) := window.Edge(stage);
    ExtentDecides(part, window, stage);
    forall p | p in part
      ensures Side(p.at, s1, s2) >= 0.0
    {
      assert InsideEdge(p.at, window, stage);
    }
    hide Side, Bounds, ExtentInsideOrOnLine, InsideEdge, RingOf;
    assert Prepare(part, window, stage) == Kept(part);
    StageOne(part, window, stage, [part]);
  }

  lemma StageOne(part: Part, window: Extent, stage: nat, outputs: seq<Part>)
    requires stage < 4 && StagePart(part, window, stage) == Some(outputs)
    ensures StageParts([part], window, stage) == Some(outputs)
  {
    hide StagePart;
    assert [part][..0] == [];
    assert StageParts([part][..0], window, stage) == Some([]);
    assert [] + outputs == outputs;
  }

  /** What the clipper makes of that triangle: the part of it outside the window. */
  const OUTER := [CROSSING_OUT, CLOCKWISE[2], CLOCKWISE[0], CLOCKWISE[0], CROSSING_IN]

  lemma ClockwisePoints(c: CP.CutRing)
    requires c.Valid() && c.trav == [1, 3] && c.spatial == [3, 1]
    requires c.working == [CLOCKWISE[0], CROSSING_IN, CLOCKWISE[1], CROSSING_OUT, CLOCKWISE[2], CLOCKWISE[0]]
    ensures CP.Points(c, CP.Finished([0], None)) == OUTER
  {
    var w := c.working;
    c.FirstIsFirst();
    assert c.First() == 1 && c.At(0) == 3 && c.At(1) == 1;
    assert CP.Stretch(w, 0, 1) == [w[0], w[1]] by { assert CP.Stretch(w, 1, 1) == [w[1]]; }
    assert CP.Stretch(w, 4, 1) == [w[4], w[5], w[0], w[1]] by {
      assert CP.Stretch(w, 5, 1) == [w[5]] + CP.Stretch(w, 0, 1);
    }
    assert CP.Run(c, 0) == CP.Stretch(w, 3, 1) == OUTER;
    assert CP.Runs(c, []) == [] && [0][..0] == [];
  }

  lemma ClockwiseStage()
    ensures StagePart(CLOCKWISE, UNIT_WINDOW, 0) == Some([OUTER])
  {
    var (s1, s2) := UNIT_WINDOW.Edge(0);
    ClockwiseIsCut();
    ClockwiseRing();
    hide CP.Walked, CP.StartsWithEntry, Prepare, RingOf, StagePart, CP.Points;
    var c := RingOf(CLOCKWISE, s1, s2, 0);
    CutIsValid(c, s1, s2);
    TwoCrossings(c);
    CutGivesParts(CLOCKWISE, UNIT_WINDOW, 0, c);
    RenderedOne(c, CP.Finished([0], None));
    ClockwisePoints(c);
  }

  lemma OuterIsInside()
    ensures forall p :: p in OUTER ==>
              p.at.y <= 0.0 && InsideEdge(p.at, UNIT_WINDOW, 1) && InsideEdge(p.at, UNIT_WINDOW, 2)
              && InsideEdge(p.at, UNIT_WINDOW, 3)
    ensures !InsideEdge(CLOCKWISE[0].at, UNIT_WINDOW, 0)
  {
    hide InsideEdge;
    forall p | p in OUTER
      ensures p.at.y <= 0.0 && 0.0 <= p.at.x <= 1.0
    {
    }
    forall q: Vec | q.y <= 0.0 && 0.0 <= q.x <= 1.0
      ensures InsideEdge(q, UNIT_WINDOW, 1) && InsideEdge(q, UNIT_WINDOW, 2) && InsideEdge(q, UNIT_WINDOW, 3)
    {
      UnderUnit(q);
    }
    BelowUnit(CLOCKWISE[0].at);
  }

  lemma UnderUnit(q: Vec)
    requires q.y <= 0.0 && 0.0 <= q.x <= 1.0
    ensures InsideEdge(q, UNIT_WINDOW, 1) && InsideEdge(q, UNIT_WINDOW, 2) && InsideEdge(q, UNIT_WINDOW, 3)
  {
  }

  lemma BelowUnit(q: Vec)
    requires q.y < 0.0
    ensures !InsideEdge(q, UNIT_WINDOW, 0)
  {
  }

  /** The assumption that the first crossing is an entry fails for a triangle given clockwise, and no later stage makes
      up for it: the clipper puts out just the part of the triangle outside the window. */
  lemma ClockwiseKeepsOutside()
    ensures Crop(CLOCKWISE, UNIT_WINDOW) == Cropped([OUTER])
    ensures CLOCKWISE[0] in OUTER && !InsideEdges(CLOCKWISE[0].at, UNIT_WINDOW)
    ensures forall p :: p in OUTER ==> p.at.y <= 0.0
  {
    hide StageParts, StagePart, InsideEdge;
    ClockwiseStage();
    StageOne(CLOCKWISE, UNIT_WINDOW, 0, [OUTER]);
    OuterIsInside();
    InsideIsKept(OUTER, UNIT_WINDOW, 1);
    InsideIsKept(OUTER, UNIT_WINDOW, 2);
    InsideIsKept(OUTER, UNIT_WINDOW, 3);
    assert Stages(CLOCKWISE, UNIT_WINDOW, 0) == Some([CLOCKWISE]);
    assert Stages(CLOCKWISE, UNIT_WINDOW, 1) == Some([OUTER]);
    assert Stages(CLOCKWISE, UNIT_WINDOW, 2) == Some([OUTER]);
    assert Stages(CLOCKWISE, UNIT_WINDOW, 3) == Some([OUTER]);
    assert !ContainsPoint(UNIT_WINDOW, CLOCKWISE[0].at) && CLOCKWISE[0] in CLOCKWISE;
  }
}
