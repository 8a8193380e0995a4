/** The route page's `flattenRoute`: the legs of a route, each a line and
    its stations, become one timeline of steps, each step a station with
    the line it is ridden on and the flags the timeline is drawn with. */
module FlattenRoute {

  /** A leg of a route: `{ line, stations }`. The station's own fields are
      kept as they are, so a station is of any type `T`. */
  datatype Leg<T> = Leg(line: string, stations: seq<T>)

  /** A timeline step: `{ ...station, line, hasLineBelow, isFirst, isLast }`. */
  datatype TimelineStep<T> = TimelineStep(station: T, line: string, hasLineBelow: bool, isFirst: bool, isLast: bool)

  /** A station together with the line of its leg. */
  datatype Placed<T> = Placed(station: T, line: string)

  /** The stations of one leg, each placed on the leg's line. */
  function OnLine<T>(stations: seq<T>, line: string): (r: seq<Placed<T>>)
    ensures |r| == |stations|
    ensures forall j :: 0 <= j < |r| ==> r[j] == Placed(stations[j], line)
  {
    if stations == [] then []
    else OnLine(stations[..|stations| - 1], line) + [Placed(stations[|stations| - 1], line)]
  }

  /** Every station of every leg, leg after leg, each on its leg's line. */
  function Placements<T>(legs: seq<Leg<T>>): seq<Placed<T>>
  {
    if legs == [] then []
    else Placements(legs[..|legs| - 1]) + OnLine(legs[|legs| - 1].stations, legs[|legs| - 1].line)
  }

  /** The placements of a route made of two parts are those of the first
      part followed by those of the second. */
  lemma {:induction false} PlacementsAppend<T>(a: seq<Leg<T>>, b: seq<Leg<T>>)
    ensures Placements(a + b) == Placements(a) + Placements(b)
  {
    if b != [] {
      var b' := b[..|b| - 1];
      assert (a + b)[..|a + b| - 1] == a + b';
      assert (a + b)[|a + b| - 1] == b[|b| - 1];
      PlacementsAppend(a, b');
    } else {
      assert a + b == a;
    }
  }

  /** Total number of stations over all legs. */
  function StationCount<T>(legs: seq<Leg<T>>): nat
  {
    if legs == [] then 0 else StationCount(legs[..|legs| - 1]) + |legs[|legs| - 1].stations|
  }

  /** One placement per station of the route: nothing is dropped or added. */
  lemma {:induction false} PlacementsCount<T>(legs: seq<Leg<T>>)
    ensures |Placements(legs)| == StationCount(legs)
  {
    if legs != [] {
      PlacementsCount(legs[..|legs| - 1]);
    }
  }

  /** A leg without stations adds no step. */
  lemma EmptyLegAddsNothing<T>(a: seq<Leg<T>>, line: string, b: seq<Leg<T>>)
    ensures Placements(a + [Leg(line, [])] + b) == Placements(a + b)
  {
    var empty: seq<Leg<T>> := [Leg(line, [])];
    PlacementsAppend(a + empty, b);
    PlacementsAppend(a, empty);
    PlacementsAppend(a, b);
    assert empty[..0] == [];
  }

  /** `steps` places the stations of `ps` in order, every step still drawn
      with a line below it and not yet marked last; only the first step of
      all is marked first. */
  ghost predicate Pushed<T>(steps: seq<TimelineStep<T>>, ps: seq<Placed<T>>)
  {
    && |steps| == |ps|
    && (forall j :: 0 <= j < |steps| ==> steps[j].station == ps[j].station && steps[j].line == ps[j].line)
    && (forall j :: 0 <= j < |steps| ==> steps[j].hasLineBelow && !steps[j].isLast)
    && (forall j :: 0 <= j < |steps| ==> (steps[j].isFirst <==> j == 0))
  }

  /** Pushing one more placed station keeps `Pushed`. */
  lemma PushOne<T>(steps: seq<TimelineStep<T>>, ps: seq<Placed<T>>, station: T, line: string)
    requires Pushed(steps, ps)
    ensures Pushed(steps + [TimelineStep(station, line, true, |steps| == 0, false)], ps + [Placed(station, line)])
  {
  }

  /** One more station of a leg: its placement comes after those already made. */
  lemma OnLineStep<T>(pre: seq<Placed<T>>, stations: seq<T>, i: nat, line: string)
    requires i < |stations|
    ensures pre + OnLine(stations[..i + 1], line) == (pre + OnLine(stations[..i], line)) + [Placed(stations[i], line)]
  {
    assert stations[..i + 1][..i] == stations[..i];
  }

  /** One more leg: its placements come after those of the legs before it. */
  lemma PlacementsStep<T>(legs: seq<Leg<T>>, k: nat)
    requires k < |legs|
    ensures Placements(legs[..k + 1]) == Placements(legs[..k]) + OnLine(legs[k].stations, legs[k].line)
  {
    assert legs[..k + 1][..k] == legs[..k];
  }

  /** `flattenRoute(route)`. One step per station of the route, in leg
      order, each on the line of its leg; the first step alone is marked
      first, the last alone is marked last, and every step but the last
      has a line drawn below it. */
  method Flatten<T>(legs: seq<Leg<T>>) returns (steps: seq<TimelineStep<T>>)
    ensures |steps| == |Placements(legs)|
    ensures forall j :: 0 <= j < |steps| ==>
      steps[j].station == Placements(legs)[j].station && steps[j].line == Placements(legs)[j].line
    ensures forall j :: 0 <= j < |steps| ==> (steps[j].isFirst <==> j == 0)
    ensures forall j :: 0 <= j < |steps| ==> (steps[j].isLast <==> j == |steps| - 1)
    ensures forall j :: 0 <= j < |steps| ==> (steps[j].hasLineBelow <==> j < |steps| - 1)
  {
    steps := [];
    for k := 0 to |legs|
      invariant Pushed(steps, Placements(legs[..k]))
    {
      var leg := legs[k];
      ghost var before := Placements(legs[..k]);
      for i := 0 to |leg.stations|
        invariant Pushed(steps, before + OnLine(leg.stations[..i], leg.line))
      {
        var station := leg.stations[i];
        OnLineStep(before, leg.stations, i, leg.line);
        PushOne(steps, before + OnLine(leg.stations[..i], leg.line), station, leg.line);
        steps := steps + [TimelineStep(station, leg.line, true, |steps| == 0, false)];
      }
      assert leg.stations[..|leg.stations|] == leg.stations;
      PlacementsStep(legs, k);
    }
    assert legs[..|legs|] == legs;
    ghost var pushed := steps;
    if |steps| > 0 {
      var n := |steps| - 1;
      steps := steps[n := steps[n].(isLast := true, hasLineBelow := false)];
    }
    // Every step but the last is given a line below it once more.
    for i := 0 to |steps|
      invariant |steps| == |pushed|
      invariant forall j :: 0 <= j < |steps| ==>
        steps[j].station == pushed[j].station && steps[j].line == pushed[j].line && steps[j].isFirst == pushed[j].isFirst
      invariant forall j :: 0 <= j < |steps| ==> (steps[j].isLast <==> j == |steps| - 1)
      invariant forall j :: 0 <= j < |steps| ==> (steps[j].hasLineBelow <==> j < |steps| - 1)
    {
      if i < |steps| - 1 {
        steps := steps[i := steps[i].(hasLineBelow := true)];
      }
    }
  }
}
