/**
 * The route-tracking state of the `MyMap` screen, as the component keeps it:
 * its React state cells and the position watch registered by its tracking
 * effect. Each React event is one method; `Rerender` stands for the render
 * that follows a state change, after which React re-runs the tracking effect
 * when one of its dependencies `[track, distanceTravelled]` has changed.
 */
module MapScreen {
  import opened Geo

  /**
   * The position watch registered by the last run of the tracking effect.
   * Its callback closed over the values `distanceTravelled` and `prevLatLng`
   * (the latter through `calcDistance`) had in the render that ran the effect.
   */
  datatype PositionWatch = NoWatch | Watching(distanceTravelled: real, prevLatLng: LatLng)

  class Screen {
    /** The `haversine` package. */
    const haversine: Haversine

    var track: bool
    var timerOn: bool
    var timer: int
    var distanceTravelled: real
    var prevLatLng: LatLng
    var route: seq<GeoPoint>

    var watch: PositionWatch
    /** The dependency values `[track, distanceTravelled]` the tracking effect last ran with. */
    var effectTrack: bool
    var effectDistance: real

    ghost predicate Valid()
      reads this
    {
      && 0 <= timer && timer % 10 == 0
      && timerOn == track
      && 0.0 <= distanceTravelled
      && (watch.Watching? ==> effectTrack && watch.distanceTravelled == effectDistance && 0.0 <= effectDistance)
    }

    /** The tracking effect has run with the current values of its dependencies. */
    predicate Settled()
      reads this
    {
      effectTrack == track && effectDistance == distanceTravelled
    }

    /** Mounting the screen: initial state cells, then the tracking effect's first run, which registers nothing. */
    constructor (haversine: Haversine)
      ensures Valid() && Settled()
      ensures this.haversine == haversine
      ensures !track && !timerOn && timer == 0 && distanceTravelled == 0.0
      ensures prevLatLng == Unset && route == [] && watch == NoWatch
    {
      this.haversine := haversine;
      track, timerOn, timer := false, false, 0;
      distanceTravelled, prevLatLng, route := 0.0, Unset, [];
      watch, effectTrack, effectDistance := NoWatch, false, 0.0;
    }

    /** `handleTrackOn`: switches tracking and the timer on and touches nothing else. */
    method HandleTrackOn()
      requires Valid()
      modifies this`track, this`timerOn
      ensures Valid()
      ensures track && timerOn
    {
      track := true;
      timerOn := true;
    }

    /** `handleTrackOff`: switches both off and zeroes the timer and the distance; `prevLatLng` is kept. */
    method HandleTrackOff()
      requires Valid()
      modifies this`track, this`timerOn, this`timer, this`distanceTravelled
      ensures Valid()
      ensures !track && !timerOn && timer == 0 && distanceTravelled == 0.0
    {
      track := false;
      timerOn := false;
      timer := 0;
      distanceTravelled := 0.0;
    }

    /** One firing of the 10 ms interval, which exists only while `timerOn` holds. */
    method TimerTick()
      requires Valid()
      modifies this`timer
      ensures Valid()
      ensures timerOn ==> timer == old(timer) + 10
      ensures !timerOn ==> timer == old(timer)
    {
      if timerOn {
        timer := timer + 10;
      }
    }

    /**
     * The `watchPosition` callback on a new reading `p`: appends it to the
     * route, sets the distance to the captured distance plus `calcDistance`
     * from the captured `prevLatLng`, and stores `p` as `prevLatLng`.
     * Without a registered watch no callback runs.
     */
    method OnWatchPosition(p: GeoPoint)
      requires Valid()
      modifies this`route, this`distanceTravelled, this`prevLatLng
      ensures Valid()
      ensures watch.NoWatch? ==>
        route == old(route) && distanceTravelled == old(distanceTravelled) && prevLatLng == old(prevLatLng)
      ensures watch.Watching? ==>
        && route == old(route) + [p]
        && distanceTravelled == watch.distanceTravelled + CalcDistance(haversine, watch.prevLatLng, p)
        && prevLatLng == At(p)
      ensures watch.Watching? && old(Settled()) ==> old(distanceTravelled) <= distanceTravelled
      ensures watch.Watching? && watch.prevLatLng.Unset? ==> distanceTravelled == watch.distanceTravelled
    {
      if watch.Watching? {
        route := route + [p];
        distanceTravelled := watch.distanceTravelled + CalcDistance(haversine, watch.prevLatLng, p);
        prevLatLng := At(p);
      }
    }

    /** The tracking effect's cleanup: `clearWatch` and `setRoute([])`. */
    method TrackingCleanup()
      requires Valid()
      modifies this`watch, this`route
      ensures Valid()
      ensures watch == NoWatch && route == []
    {
      watch := NoWatch;
      route := [];
    }

    /** The tracking effect's body: registers a watch, closing over the current state, when `track` holds. */
    method TrackingEffect()
      requires Valid() && watch == NoWatch
      modifies this`watch, this`effectTrack, this`effectDistance
      ensures Valid() && Settled()
      ensures watch == if track then Watching(distanceTravelled, prevLatLng) else NoWatch
    {
      if track {
        watch := Watching(distanceTravelled, prevLatLng);
      }
      effectTrack, effectDistance := track, distanceTravelled;
    }

    /**
     * The render after a state change: when `track` or `distanceTravelled`
     * differs from the last run of the tracking effect, React runs the old
     * run's cleanup and then the effect again; otherwise nothing happens.
     */
    method Rerender()
      requires Valid()
      modifies this`watch, this`route, this`effectTrack, this`effectDistance
      ensures Valid() && Settled()
      ensures old(Settled()) ==> watch == old(watch) && route == old(route)
      ensures !old(Settled()) ==>
        route == [] && watch == if track then Watching(distanceTravelled, prevLatLng) else NoWatch
    {
      if !Settled() {
        TrackingCleanup();
        TrackingEffect();
      }
    }
  }

  /**
   * A first tracking session as written: the watch closes over the initial
   * `prevLatLng` (the empty string), so every reading adds the fallback 0,
   * `distanceTravelled` never changes and the effect is never re-run with a
   * fresher `prevLatLng`. However far apart the readings are, the distance
   * stays 0; the route, never cleared, keeps every reading.
   */
  method FirstSession(h: Haversine, p1: GeoPoint, p2: GeoPoint, p3: GeoPoint)
    returns (distance: real, route: seq<GeoPoint>)
    ensures distance == 0.0
    ensures route == [p1, p2, p3]
  {
    var screen := new Screen(h);
    screen.HandleTrackOn();
    screen.Rerender();
    screen.OnWatchPosition(p1);
    screen.Rerender();
    screen.OnWatchPosition(p2);
    screen.Rerender();
    screen.OnWatchPosition(p3);
    screen.Rerender();
    distance, route := screen.distanceTravelled, screen.route;
  }

  /**
   * A second session as written: `handleTrackOff` keeps `prevLatLng`, so the
   * first reading `q` of the new session is measured from the last reading
   * `p` of the previous one; and because that changes `distanceTravelled`,
   * the effect's cleanup then empties the route again.
   */
  method SecondSession(h: Haversine, p: GeoPoint, q: GeoPoint)
    returns (distance: real, route: seq<GeoPoint>)
    ensures distance == h(p, q)
    ensures h(p, q) != 0.0 ==> route == []
    ensures h(p, q) == 0.0 ==> route == [q]
  {
    var screen := new Screen(h);
    screen.HandleTrackOn();
    screen.Rerender();
    screen.OnWatchPosition(p);
    screen.Rerender();
    screen.HandleTrackOff();
    screen.Rerender();
    screen.HandleTrackOn();
    screen.Rerender();
    screen.OnWatchPosition(q);
    screen.Rerender();
    distance, route := screen.distanceTravelled, screen.route;
  }
}
