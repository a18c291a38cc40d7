/**
 The trail of a route drawing: the driver's fixes joined in time order, dashed across coverage gaps.
 */
module RouteTrail {
  import opened Wrappers
  import opened Sorting

  datatype Pixel = Pixel(x: real, y: real)

  datatype PositionFix = PositionFix(recordedAt: Option<real>, source: string, lat: real, lng: real)

  datatype Gap = Gap(start: real, end: real)

  datatype Element = Polyline(points: seq<Pixel>) | DashedLine(a: Pixel, b: Pixel)

  const DRIVER_PHONE := "driver_phone"

  /** A fix of the driver's phone and when it was recorded. */
  datatype TimedFix = TimedFix(at: real, fix: PositionFix)

  function PhoneFixes(trail: seq<PositionFix>): seq<TimedFix> {
    if trail == [] then []
    else
      (if trail[0].source == DRIVER_PHONE && trail[0].recordedAt.Some?
       then [TimedFix(trail[0].recordedAt.value, trail[0])] else [])
      + PhoneFixes(trail[1..])
  }

  predicate Earlier(f: TimedFix, g: TimedFix) { f.at <= g.at }

  function Timed(trail: seq<PositionFix>): seq<TimedFix> { Sort(PhoneFixes(trail), Earlier) }

  predicate SpansGap(start: real, end: real, gaps: seq<Gap>) {
    exists i :: 0 <= i < |gaps| && gaps[i].start < end && gaps[i].end > start
  }

  /** An edge of the drawing. */
  datatype Segment = Segment(a: Pixel, b: Pixel, dashed: bool)

  type Projection = PositionFix -> Pixel

  /** What is to be drawn: every consecutive pair of fixes, dashed exactly across a gap. */
  function Segments(timed: seq<TimedFix>, gaps: seq<Gap>, px: Projection): (r: seq<Segment>)
    ensures |r| == if timed == [] then 0 else |timed| - 1
  {
    if timed == [] then []
    else
      seq(|timed| - 1, i requires 0 <= i < |timed| - 1 =>
        Segment(px(timed[i].fix), px(timed[i + 1].fix), SpansGap(timed[i].at, timed[i + 1].at, gaps)))
  }

  /** The edges of a polyline. */
  function Pairs(points: seq<Pixel>): seq<Segment> {
    if |points| < 2 then []
    else Pairs(points[..|points| - 1]) + [Segment(points[|points| - 2], points[|points| - 1], false)]
  }

  function Drawn(e: Element): seq<Segment> {
    match e
    case Polyline(points) => Pairs(points)
    case DashedLine(a, b) => [Segment(a, b, true)]
  }

  function DrawnAll(elements: seq<Element>): seq<Segment> {
    if elements == [] then [] else DrawnAll(elements[..|elements| - 1]) + Drawn(elements[|elements| - 1])
  }

  /** Every polyline has an edge, and no polyline could be joined to the one before it. */
  ghost predicate Maximal(elements: seq<Element>) {
    && (forall i :: 0 <= i < |elements| && elements[i].Polyline? ==> |elements[i].points| >= 2)
    && (forall i :: 0 < i < |elements| ==> elements[i - 1].DashedLine? || elements[i].DashedLine?)
  }

  lemma DrawnSnoc(elements: seq<Element>, e: Element)
    ensures DrawnAll(elements + [e]) == DrawnAll(elements) + Drawn(e)
  {
    assert (elements + [e])[..|elements|] == elements;
  }

  lemma PairsSnoc(points: seq<Pixel>, p: Pixel)
    requires points != []
    ensures Pairs(points + [p]) == Pairs(points) + [Segment(points[|points| - 1], p, false)]
  {
    assert (points + [p])[..|points|] == points;
  }

  /** A polyline may follow only a dashed line. */
  predicate OpenForPolyline(elements: seq<Element>) {
    elements == [] || elements[|elements| - 1].DashedLine?
  }

  lemma MaximalDashed(elements: seq<Element>, a: Pixel, b: Pixel)
    requires Maximal(elements)
    ensures Maximal(elements + [DashedLine(a, b)]) && OpenForPolyline(elements + [DashedLine(a, b)])
    ensures DrawnAll(elements + [DashedLine(a, b)]) == DrawnAll(elements) + [Segment(a, b, true)]
  {
    DrawnSnoc(elements, DashedLine(a, b));
  }

  /** Draws the run collected so far. */
  method Flush(elements: seq<Element>, run: seq<Pixel>) returns (r: seq<Element>)
    requires Maximal(elements) && OpenForPolyline(elements)
    ensures DrawnAll(r) == DrawnAll(elements) + Pairs(run) && Maximal(r)
    ensures r == if |run| >= 2 then elements + [Polyline(run)] else elements
  {
    r := elements;
    if |run| >= 2 {
      DrawnSnoc(elements, Polyline(run));
      r := r + [Polyline(run)];
    }
  }

  /** The run collected so far ends where the next pair starts. */
  predicate RunEnds(run: seq<Pixel>, at: Pixel) {
    run == [] || (|run| >= 2 && run[|run| - 1] == at)
  }

  /** The elements and the run on top of them draw the first i segments. */
  ghost predicate Draws(elements: seq<Element>, run: seq<Pixel>, wanted: seq<Segment>, i: nat) {
    && i <= |wanted|
    && DrawnAll(elements) + Pairs(run) == wanted[..i]
    && Maximal(elements) && OpenForPolyline(elements)
    && (i < |wanted| ==> RunEnds(run, wanted[i].a))
  }

  lemma GapDrawn(elements: seq<Element>, wanted: seq<Segment>, i: nat)
    requires i < |wanted| && DrawnAll(elements) == wanted[..i] && wanted[i].dashed
    ensures DrawnAll(elements + [DashedLine(wanted[i].a, wanted[i].b)]) + Pairs([]) == wanted[..i + 1]
  {
    DrawnSnoc(elements, DashedLine(wanted[i].a, wanted[i].b));
    assert wanted[..i + 1] == wanted[..i] + [wanted[i]];
  }

  lemma DrawsGap(elements: seq<Element>, run: seq<Pixel>, wanted: seq<Segment>, i: nat, flushed: seq<Element>)
    requires Draws(elements, run, wanted, i) && i < |wanted| && wanted[i].dashed
    requires Maximal(flushed) && DrawnAll(flushed) == DrawnAll(elements) + Pairs(run)
    ensures Draws(flushed + [DashedLine(wanted[i].a, wanted[i].b)], [], wanted, i + 1)
  {
    MaximalDashed(flushed, wanted[i].a, wanted[i].b);
    GapDrawn(flushed, wanted, i);
  }

  lemma DrawsEdge(elements: seq<Element>, run: seq<Pixel>, wanted: seq<Segment>, i: nat)
    requires Draws(elements, run, wanted, i) && i < |wanted| && !wanted[i].dashed
    requires i + 1 < |wanted| ==> wanted[i + 1].a == wanted[i].b
    ensures Draws(elements, (if run == [] then [wanted[i].a] else run) + [wanted[i].b], wanted, i + 1)
  {
    PairsSnoc(if run == [] then [wanted[i].a] else run, wanted[i].b);
    assert wanted[..i + 1] == wanted[..i] + [wanted[i]];
    assert DrawnAll(elements) + (Pairs(run) + [wanted[i]]) == wanted[..i + 1];
  }

  /** Draws the next pair, or adds it to the run. */
  method DrawPair(elements: seq<Element>, run: seq<Pixel>, start: Pixel, end: Pixel, dashed: bool,
                  ghost wanted: seq<Segment>, ghost i: nat)
    returns (elements': seq<Element>, run': seq<Pixel>)
    requires Draws(elements, run, wanted, i) && i < |wanted| && wanted[i] == Segment(start, end, dashed)
    requires i + 1 < |wanted| ==> wanted[i + 1].a == end
    ensures Draws(elements', run', wanted, i + 1)
  {
    if dashed {
      elements' := Flush(elements, run);
      DrawsGap(elements, run, wanted, i, elements');
      run' := [];
      elements' := elements' + [DashedLine(start, end)];
      return;
    }
    DrawsEdge(elements, run, wanted, i);
    elements', run' := elements, run;
    if run' == [] {
      run' := [start];
    }
    run' := run' + [end];
  }

  /** The loop over consecutive fixes. */
  method DrawTimed(timed: seq<TimedFix>, gaps: seq<Gap>, px: Projection) returns (elements: seq<Element>)
    ensures DrawnAll(elements) == Segments(timed, gaps, px)
    ensures Maximal(elements)
  {
    ghost var wanted := Segments(timed, gaps, px);
    elements := [];
    var run: seq<Pixel> := [];
    var i := 0;
    while i + 1 < |timed|
      invariant 0 <= i && Draws(elements, run, wanted, i)
    {
      var previous, fix := timed[i], timed[i + 1];
      elements, run := DrawPair(elements, run, px(previous.fix), px(fix.fix), SpansGap(previous.at, fix.at, gaps),
                                wanted, i);
      i := i + 1;
    }
    elements := Flush(elements, run);
    assert wanted[..i] == wanted;
  }

  /** The emitted elements, flattened in order, are every consecutive pair of fixes exactly once, as a
      dashed line where it spans a gap and otherwise as an edge of a polyline as long as possible. */
  method TrailElements(trail: seq<PositionFix>, gaps: seq<Gap>, px: Projection) returns (elements: seq<Element>)
    ensures DrawnAll(elements) == Segments(Timed(trail), gaps, px)
    ensures Maximal(elements)
  {
    elements := DrawTimed(Timed(trail), gaps, px);
  }

  /** The instant lies in the gap and between the two fixes, and inside at least one of them. */
  predicate Shares(gap: Gap, start: real, end: real, t: real) {
    && gap.start <= t <= gap.end && start <= t <= end
    && (gap.start < t < gap.end || start < t < end)
  }

  /** A stretch between two fixes spans a gap exactly when they share an instant strictly inside one of them. */
  lemma SpansGapIff(start: real, end: real, gaps: seq<Gap>)
    requires start <= end && forall i :: 0 <= i < |gaps| ==> gaps[i].start <= gaps[i].end
    ensures SpansGap(start, end, gaps) <==> exists i, t :: 0 <= i < |gaps| && Shares(gaps[i], start, end, t)
  {
    if SpansGap(start, end, gaps) {
      var i :| 0 <= i < |gaps| && gaps[i].start < end && gaps[i].end > start;
      var low := if gaps[i].start < start then start else gaps[i].start;
      var high := if gaps[i].end < end then gaps[i].end else end;
      assert Shares(gaps[i], start, end, (low + high) / 2.0);
    }
  }

  // ---- Which fixes are joined, and in which order ----------------------------------------------

  /** The fixes recorded by the phone at an instant, in the order of the trail. */
  function RecordedAt(trail: seq<PositionFix>, at: real): seq<PositionFix> {
    if trail == [] then []
    else
      (if trail[0].source == "driver_phone" && trail[0].recordedAt == Some(at) then [trail[0]] else [])
      + RecordedAt(trail[1..], at)
  }

  /** The fixes of a list at an instant, in the order of the list. */
  function FixesAt(timed: seq<TimedFix>, at: real): seq<PositionFix> {
    if timed == [] then [] else (if timed[0].at == at then [timed[0].fix] else []) + FixesAt(timed[1..], at)
  }

  lemma FixesCons(f: TimedFix, timed: seq<TimedFix>, at: real)
    ensures FixesAt([f] + timed, at) == (if f.at == at then [f.fix] else []) + FixesAt(timed, at)
  {
    assert ([f] + timed)[1..] == timed;
  }

  lemma {:induction false} PhoneFixesAt(trail: seq<PositionFix>, at: real)
    ensures FixesAt(PhoneFixes(trail), at) == RecordedAt(trail, at)
  {
    if trail != [] {
      PhoneFixesAt(trail[1..], at);
      if trail[0].source == DRIVER_PHONE && trail[0].recordedAt.Some? {
        FixesCons(TimedFix(trail[0].recordedAt.value, trail[0]), PhoneFixes(trail[1..]), at);
      } else {
        assert PhoneFixes(trail) == PhoneFixes(trail[1..]);
      }
    }
  }

  lemma {:induction false} InsertAt(f: TimedFix, timed: seq<TimedFix>, at: real)
    ensures FixesAt(Insert(f, timed, Earlier), at) == FixesAt([f] + timed, at)
  {
    if timed != [] && !Earlier(f, timed[0]) {
      var head, rest := timed[0], timed[1..];
      InsertAt(f, rest, at);
      Swapped(f, head, rest, Insert(f, rest, Earlier), at);
      assert timed == [head] + rest;
    }
  }

  lemma Swapped(f: TimedFix, head: TimedFix, rest: seq<TimedFix>, inserted: seq<TimedFix>, at: real)
    requires f.at != head.at && FixesAt(inserted, at) == FixesAt([f] + rest, at)
    ensures FixesAt([head] + inserted, at) == FixesAt([f] + ([head] + rest), at)
  {
    FixesCons(head, inserted, at);
    FixesCons(f, rest, at);
    FixesCons(head, rest, at);
    FixesCons(f, [head] + rest, at);
  }

  lemma {:induction false} SortAt(timed: seq<TimedFix>, at: real)
    ensures FixesAt(Sort(timed, Earlier), at) == FixesAt(timed, at)
  {
    if timed != [] {
      var head, rest := timed[0], timed[1..];
      SortAt(rest, at);
      InsertAt(head, Sort(rest, Earlier), at);
      FixesCons(head, Sort(rest, Earlier), at);
      assert timed == [head] + rest;
    }
  }

  /** The fixes joined are those of the driver's phone with a time: at every instant those recorded then, in
      the order of the trail, and earlier instants first. */
  lemma TimedIs(trail: seq<PositionFix>)
    ensures forall i, j :: 0 <= i < j < |Timed(trail)| ==> Timed(trail)[i].at <= Timed(trail)[j].at
    ensures forall at :: FixesAt(Timed(trail), at) == RecordedAt(trail, at)
  {
    SortSorted(PhoneFixes(trail), Earlier);
    forall at ensures FixesAt(Timed(trail), at) == RecordedAt(trail, at) {
      SortAt(PhoneFixes(trail), at);
      PhoneFixesAt(trail, at);
    }
  }
}
