# Route tracking and elapsed-time display of the Headway map screen

This project models the two pieces of logic inside the Headway mobile app's map screen and proves properties about them.

- **The elapsed-time display** of the `Timer` component. A millisecond counter is shown as three two-digit fields: minutes `floor(t/60000) mod 60`, seconds `floor(t/1000) mod 60` and hundredths `floor(t/10) mod 100`. Each field is padded with `("0" + n).slice(-2)`. Module `Timer` holds the display. Module `Digits` holds the JavaScript string operations it uses: `String(n)`, `slice` with a negative start, and reading a field back as a number.
- **The route-tracking state of `MyMap`.** The flags `track` and `timerOn`, the `timer`, `distanceTravelled`, `prevLatLng` and `route` cells are fields of the class `MapScreen.Screen`. There is one method per event: `handleTrackOn`, `handleTrackOff`, the 10 ms interval tick, the `watchPosition` callback, and the tracking effect's body and cleanup. `Rerender` re-runs the effect when its dependencies `[track, distanceTravelled]` have changed. The watch callback closes over the values of its render. The model keeps those captured values (`PositionWatch`), because the distance the screen shows depends on them.
- **Distances.** The `haversine` package is an abstract function `Geo.Haversine` that is never negative. `calcDistance` keeps its `|| 0` fallback. Called with the initial `prevLatLng` (the empty string), the package computes `NaN`, and the fallback turns that into 0.
- **The marker colour** of a reported issue. This is a `switch` with JavaScript fall-through, modelled clause by clause in module `MarkerColor`.
- **Module `Tracking`** is the session as it is evidently meant to behave. It is the corrected side of the findings below.

## Model

| member | source | states |
|---|---|---|
| `Digits.ToDecimal` | app/components/Timer.js:13 | `String(n)` of a non-negative integer below 10^21 (the idealised numeral beyond) is all digits, has one character exactly when n < 10, and starts with '0' only for 0 |
| `Digits.ParseToDecimal` | app/components/Timer.js:13 | reading the numeral `String(n)` back in base 10 gives n |
| `Digits.Slice` | app/components/Timer.js:13 | `s.slice(k)` with negative k keeps the last min(-k, length) characters of s; with k ≥ 0 it drops the first k |
| `Digits.PadTwo` | app/components/Timer.js:13 | `("0" + n).slice(-2)` is two decimal digits, and reading them gives n mod 100 (the display passes only n < 100) |
| `Digits.PadTwoShape` | app/components/Timer.js:13 | for n < 10 the field is '0' followed by the digit of n; for 10 ≤ n < 100 it is `String(n)` |
| `Timer.JsFieldIsIntegerField` | app/components/Timer.js:13 | `Math.floor((t / unit) % modulus)` with JavaScript's truncating `%` equals (t div unit) mod modulus for every non-negative integer t |
| `Timer.FieldsMatchJavaScript` | app/components/Timer.js:13-21 | minutes, seconds and hundredths are exactly the three floating-point expressions of the component, below 60, 60 and 100 |
| `Timer.FormatElapsed` | app/components/Timer.js:13-21 | every field is two digits, and the fields read back as (t div 60000) mod 60, (t div 1000) mod 60 and (t div 10) mod 100 |
| `Timer.ReadClock` | app/components/Timer.js:13-21 | reading a display back, when it succeeds, gives a count of hundredths below one hour; it is the inverse used by `Timer.ReadFormatElapsed` |
| `Timer.ReadFormatElapsed` | app/components/Timer.js:13-21 | reading the display of t back gives (t div 10) mod 360000: the display loses nothing below the hour and the hundredth |
| `Timer.FormatElapsedSameIff` | app/components/Timer.js:13-21 | two counters show the same display exactly when they agree modulo one hour, to the hundredth (both directions) |
| `Timer.FormatElapsedPeriodic` | app/components/Timer.js:13-21 | t and t + 3600000 show identical fields |
| `Timer.FormatElapsedZero` | app/components/Timer.js:13-21 | a zero counter shows "00", "00", "00" |
| `Timer.FormatElapsedExample` | app/components/Timer.js:13-21 | 65000 ms shows "01", "05", "00" |
| `Timer.FormatElapsedWraps` | app/components/Timer.js:13-21 | 999999999 ms shows "46", "39", "99": minutes wrap modulo 60 and no field overflows two digits |
| `Geo.HaversineCall` | app/screens/MyMap.js:94 | the package's result is NaN exactly when the previous position is still the initial empty string |
| `Geo.CalcDistance` | app/screens/MyMap.js:93-95 | `calcDistance` is never negative; it is 0 while `prevLatLng` is unset; otherwise it is the haversine distance, which the zero fallback never alters |
| `Geo.PathLengthIsPairwiseSum` | app/screens/MyMap.js:84-85 | adding `calcDistance` from the previous reading, reading by reading, sums the distances between consecutive readings, the first contributing 0 |
| `Geo.PathLengthNonNegative` | app/screens/MyMap.js:84 | an accumulated distance is never negative |
| `Geo.PathLengthPrefix` | app/screens/MyMap.js:84 | more readings never make the accumulated distance smaller |
| `Geo.PathLengthThree` | app/screens/MyMap.js:84-85 | readings p1, p2, p3 accumulate h(p1, p2) + h(p2, p3) |
| `MapScreen.Screen.constructor` | app/screens/MyMap.js:35-41 | the initial state cells: tracking and timer off, timer 0, distance 0, `prevLatLng` unset, empty route, no watch registered |
| `MapScreen.Screen.HandleTrackOn` | app/screens/MyMap.js:45-48 | sets `track` and `timerOn`; its frame lets nothing else change |
| `MapScreen.Screen.HandleTrackOff` | app/screens/MyMap.js:49-54 | yields `track` and `timerOn` false, timer 0 and distance 0 whatever the prior state, so it is idempotent; `prevLatLng` and the route are outside its frame |
| `MapScreen.Screen.TimerTick` | app/screens/MyMap.js:56-64 | a tick adds exactly 10 to `timer` while `timerOn` holds and changes nothing otherwise |
| `MapScreen.Screen.OnWatchPosition` | app/screens/MyMap.js:73-86 | with a watch registered, a reading is appended at the end of the route, and the distance becomes the captured distance plus `calcDistance` from the captured `prevLatLng`, after which `prevLatLng` is the reading; a settled screen's distance never decreases; a callback that captured the unset `prevLatLng` leaves the distance at its captured value |
| `MapScreen.Screen.TrackingCleanup` | app/screens/MyMap.js:88-91 | the cleanup unregisters the watch and empties the route |
| `MapScreen.Screen.TrackingEffect` | app/screens/MyMap.js:65-87 | the effect registers a watch exactly when `track` holds, closing over the current distance and `prevLatLng` |
| `MapScreen.Screen.Rerender` | app/screens/MyMap.js:65-92 | when `track` or `distanceTravelled` changed since the effect last ran, the route is emptied and the watch re-registered from the current state; otherwise nothing changes |
| `MapScreen.FirstSession` | app/screens/MyMap.js:40-95 | in a first session, readings p1, p2, p3 leave `distanceTravelled` at 0 for every distance function, with route [p1, p2, p3] |
| `MapScreen.SecondSession` | app/screens/MyMap.js:45-95 | after stop and start, the first reading q is measured from the previous session's last reading p; when h(p, q) is not 0 the route is emptied again |
| `Tracking.Session.constructor` | app/screens/MyMap.js:35-41 | a new session is inactive and all zero |
| `Tracking.Session.Start` | app/screens/MyMap.js:45-48 | starting activates the session; a stopped session starts from zero |
| `Tracking.Session.Stop` | app/screens/MyMap.js:49-54 | stopping yields the all-zero state whatever the prior state, including an unset last reading |
| `Tracking.Session.OnTimerTick` | app/screens/MyMap.js:56-64 | a tick adds 10 to the elapsed time while active and nothing otherwise |
| `Tracking.Session.OnPositionUpdate` | app/screens/MyMap.js:73-86 | while active, a reading is appended and the distance grows by `calcDistance` from the previous reading; the distance always equals the summed distance of the route and never decreases |
| `Tracking.ThreeReadings` | app/screens/MyMap.js:73-95 | readings p1, p2, p3 give route [p1, p2, p3] and distance h(p1, p2) + h(p2, p3) |
| `Tracking.Restart` | app/screens/MyMap.js:49-54 | after stop and start, the first reading adds 0 and starts a fresh route |
| `MarkerColor.CaseIndex` | app/screens/MyMap.js:234-257 | control enters at the first `case` whose label equals the name; no earlier case matches; None only when no case matches |
| `MarkerColor.DefaultIndex` | app/screens/MyMap.js:255 | finds the `default:` clause, or None when there is none |
| `MarkerColor.RunFrom` | app/screens/MyMap.js:234-258 | entering a clause always assigns a colour; the result is the colour of the first clause from the entry on that has a `break`, or of the last clause when none has one; past the end the prior value stays |
| `MarkerColor.Switch` | app/screens/MyMap.js:234-258 | when some clause is a case equal to the name or `default`, a colour is assigned; when none is, the variable keeps its prior value; the result is always the prior value or the colour of one of the clauses |
| `MarkerColor.MarkerColor` | app/screens/MyMap.js:233-258 | the colour is always defined and one of green, tomato, wheat, orange, indigo, teal, purple, never yellow; each name maps to its colour; "Street Light Outage" falls through to tomato; unknown names give purple |
| `MarkerColor.IssueSwitchEntry` | app/screens/MyMap.js:234-257 | where control enters the switch for each name, and that `default` is the last clause |
| `MarkerColor.PavementNeedsTrailingSpace` | app/screens/MyMap.js:240 | "Pavement " with a trailing space is tomato, while "Pavement" is purple |
| `MarkerColor.CorrectedMarkerColorSpec` | app/screens/MyMap.js:238-241 | with the missing `break`, "Street Light Outage" is yellow and every other name keeps its colour |

## Left out

- The `haversine` package's spherical trigonometry (app/screens/MyMap.js:25, 94). The model keeps it as an abstract non-negative function, so no concrete distance (such as about 111 km between two points on the equator one degree of longitude apart) is modelled.
- `regionFrom` (app/screens/MyMap.js:346-366). It is floating-point trigonometry and nothing calls it.
- The `parseFloat(distanceTravelled).toFixed(2)` "km" label (app/screens/MyMap.js:149). It is floating-point formatting.
- `getFeedComplains`, `axios.get`, and the socket `complain` refresh (app/screens/MyMap.js:96-124). These are network I/O.
- `getCurrentPosition` with its empty success callback and its `alert`, and `console.log`. They do not change the state.
- `setInterval`/`clearInterval` and the asynchronous delivery of `watchPosition`. Ticks and readings are explicit events applied one at a time, after React has rendered the previous change. So a tick fires exactly while `timerOn` holds.
- MapScreen.Screen.OnWatchPosition: applies the three setters of the `watchPosition` callback (app/screens/MyMap.js:82-85) together, as React does when it batches them, and `Rerender` stands for the render and effect run that follow. React Native's legacy renderer does not batch updates from a native callback: each setter renders on its own, and the pending effect re-runs between `setDistanceTravelled` and `setPrevLatLng`, so the new watch captures the reading before the current one. Under that delivery, later readings of a session are measured from two readings back: reading p, stop, start, then readings q and r give h(p, q) + h(p, r), where the model gives h(p, q) + h(q, r). The first reading of every session comes out the same under both deliveries, and so do the four findings below.
- JSX rendering, styles, navigation (`handleAddMarker`), `AuthContext`, the `Loader` component and `pick`. `pick` and the object literal give the same `{latitude, longitude}` pair.
- Timer.JsField: JavaScript's division and `%` are computed on exact real numbers, not IEEE-754 doubles. The quotient `t / unit` of an integer counter is either an integer or at least 1/unit away from one, and IEEE `%` is exact, so rounding can change a field only from about 2^53 ms (some 285,000 years); the model does not capture that.
- Geo.PathLength: distances are summed exactly as real numbers. JavaScript adds doubles, whose addition rounds and is not associative, so the rounding of the running total in `distanceTravelled` is not modelled, and `Geo.PathLengthIsPairwiseSum` holds only in exact arithmetic.
- Geo.CalcDistance: the package's result is NaN only for the unset previous position. Other ways the package could produce NaN, such as missing coordinates, are outside the model.
- `MapScreen.Screen` follows the code: `handleTrackOff` leaves `prevLatLng` alone, and the route is cleared only by the effect cleanup on the next render. `Tracking.Session` instead clears the route and the last reading when a session stops, which is the behaviour the findings below take as intended.

## Findings

| source | as written | input that shows it | evidently intended | confidence | as-written member | corrected member |
|---|---|---|---|---|---|---|
| app/screens/MyMap.js:84-94 | the watch callback adds `calcDistance` using the `prevLatLng` its closure captured; in a first session that is the initial empty string, the distance never changes, and the effect never re-runs to refresh it | start tracking, then readings p1, p2, p3 at any distances: `distanceTravelled` stays 0 | each reading adds its distance from the previous reading | not executed; high | `MapScreen.FirstSession` | `Tracking.ThreeReadings` |
| app/screens/MyMap.js:88-92 | the effect's cleanup empties the route whenever `distanceTravelled` changes, so the polyline loses its points after every reading that moves | second session, reading q with h(p, q) ≠ 0: the route is [] afterwards | the route keeps every reading of the session | not executed; high | `MapScreen.SecondSession` | `Tracking.Session.OnPositionUpdate` |
| app/screens/MyMap.js:49-54 | `handleTrackOff` keeps `prevLatLng`, so a new session's first reading is measured from the last reading of the previous session | reading p, stop, start, reading q: the distance is h(p, q) | the first reading of a session adds 0 | not executed; medium | `MapScreen.SecondSession` | `Tracking.Restart` |
| app/screens/MyMap.js:238-241 | the "Street Light Outage" case assigns yellow without `break` and falls into the "Pavement " case | issue name "Street Light Outage": the pin is tomato | street-light outages are yellow | not executed; high | `MarkerColor.MarkerColor` | `MarkerColor.CorrectedMarkerColorSpec` |
