/**
 * The tracking session as the screen evidently means it to behave: the
 * position callback reads the current distance and previous reading instead
 * of the ones its closure captured, the route is cleared only when a session
 * ends, and ending a session forgets the previous reading too.
 */
module Tracking {
  import opened Geo

  class Session {
    const haversine: Haversine

    var active: bool
    var route: seq<GeoPoint>
    var distanceTravelled: real
    var elapsedMillis: int
    var lastPoint: LatLng

    /** The distance is the sum of the hops between the route's consecutive readings. */
    ghost predicate Valid()
      reads this
    {
      && distanceTravelled == PathLength(haversine, route)
      && lastPoint == LastPoint(route)
      && 0 <= elapsedMillis && elapsedMillis % 10 == 0
      && (!active ==> route == [] && elapsedMillis == 0)
    }

    constructor (haversine: Haversine)
      ensures Valid()
      ensures this.haversine == haversine
      ensures !active && route == [] && distanceTravelled == 0.0 && elapsedMillis == 0 && lastPoint == Unset
    {
      this.haversine := haversine;
      active, route, distanceTravelled, elapsedMillis, lastPoint := false, [], 0.0, 0, Unset;
    }

    /** Starts tracking; a stopped session always starts from zero. */
    method Start()
      requires Valid()
      modifies this`active
      ensures Valid() && active
      ensures !old(active) ==> route == [] && distanceTravelled == 0.0 && elapsedMillis == 0 && lastPoint == Unset
    {
      active := true;
    }

    /** Ends the session and resets everything, whatever the state was: stopping twice is stopping once. */
    method Stop()
      requires Valid()
      modifies this`active, this`route, this`distanceTravelled, this`elapsedMillis, this`lastPoint
      ensures Valid()
      ensures !active && route == [] && distanceTravelled == 0.0 && elapsedMillis == 0 && lastPoint == Unset
    {
      active, route, distanceTravelled, elapsedMillis, lastPoint := false, [], 0.0, 0, Unset;
    }

    method OnTimerTick()
      requires Valid()
      modifies this`elapsedMillis
      ensures Valid()
      ensures elapsedMillis == if active then old(elapsedMillis) + 10 else old(elapsedMillis)
    {
      if active {
        elapsedMillis := elapsedMillis + 10;
      }
    }

    /** A reading while active: appended to the route and measured from the previous reading. */
    method OnPositionUpdate(p: GeoPoint)
      requires Valid()
      modifies this`route, this`distanceTravelled, this`lastPoint
      ensures Valid()
      ensures active ==> route == old(route) + [p] && lastPoint == At(p)
      ensures active ==> distanceTravelled == old(distanceTravelled) + CalcDistance(haversine, old(lastPoint), p)
      ensures !active ==> route == old(route) && lastPoint == old(lastPoint)
      ensures old(distanceTravelled) <= distanceTravelled
    {
      if active {
        var init := route;
        distanceTravelled := distanceTravelled + CalcDistance(haversine, lastPoint, p);
        route := route + [p];
        lastPoint := At(p);
        assert route[..|route| - 1] == init;
      }
    }
  }

  /** Three readings in a session accumulate the two hops between them and keep all three in order. */
  method ThreeReadings(h: Haversine, p1: GeoPoint, p2: GeoPoint, p3: GeoPoint)
    returns (distance: real, route: seq<GeoPoint>)
    ensures distance == h(p1, p2) + h(p2, p3)
    ensures route == [p1, p2, p3]
  {
    var session := new Session(h);
    session.Start();
    session.OnPositionUpdate(p1);
    session.OnPositionUpdate(p2);
    session.OnPositionUpdate(p3);
    PathLengthThree(h, p1, p2, p3);
    distance, route := session.distanceTravelled, session.route;
  }

  /** A new session after a stop measures its first reading from nothing, not from the old session. */
  method Restart(h: Haversine, p: GeoPoint, q: GeoPoint)
    returns (distance: real, route: seq<GeoPoint>)
    ensures distance == 0.0
    ensures route == [q]
  {
    var session := new Session(h);
    session.Start();
    session.OnPositionUpdate(p);
    session.Stop();
    session.Start();
    session.OnPositionUpdate(q);
    distance, route := session.distanceTravelled, session.route;
  }
}
