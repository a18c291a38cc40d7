# Verification model of the freight backend's core rules

This project models the parts of the backend whose behaviour spans many steps or many inputs, and
proves what they keep. Each group has an executable form, which follows the code branch by branch,
and a simpler meaning that it is proved against.

- **Transactional outbox** (`Scopes`, `Outbox`). Events wait in one flat list with a length mark per
  open savepoint. The class `Session` performs the callbacks on that list; module `Scopes` says what
  they mean on a stack of scopes. Every operation refines the stack, so every run publishes exactly
  the events whose whole chain of scopes committed.
- **Geofences** (`Plane`, `Rings`, `Geofence`, `RayCasting`, `Boundary`, `Outlines`, `OutlineCurve`,
  `OutlineRules`, `ClosedTwice`, `NotchedOutline`, `Rounding`). Segment crossing, ray casting,
  simplicity, area, distance to the boundary, an interior point, the stored form of an outline and
  the pin rule. Ray casting is proved against the crossings of segments in any direction, not only
  of the ray that the code casts, and a stored outline is proved to be a simple closed curve.
- **Sessions** (`SingleDevice`, `IdleTimeout`, `Visits`, `ActivityStamps`, `DispatcherWindow`).
  Requests are split into a read and a later write over shared rows, and interleave freely. The
  classes hold the tables and serve one request; the state machines hold all interleavings. The idle
  windows are stated over serial runs of several sessions, for dispatchers with the sweep running.
- **Limiter and key cache** (`RateLimiter`, `JwksCache`). State machines with a clock, and bounds
  that hold on every run.
- **Canonical forms** (`Numerals`, `Json`, `TextOrder`, `CanonicalJson`, `Timestamps`, `Uuids`,
  `WrittenForms`, `JourneyLock`, `PayloadKeys`, `JourneyCommitment`, `StopOrder`, `Base64`,
  `Cursor`, `SourceDigest`). What the journey lock's text commits to, what stands under each of its
  keys, the opaque cursor, and the byte stream of the source digest. Reading and writing of JSON,
  base64, ISO times and ids is modelled down to the characters.
- **Route drawing** (`RouteTrail`, `RouteFrame`), **lane statistics** (`OrderStats`, `LanePools`)
  and the **structure ratchet** (`FunctionNames`, `StructureRatchet`, `RatchetRules`).

`Wrappers`, `RawBytes`, `Reals`, `Folds`, `Sorting` and `Separators` hold shared vocabulary.

## Where the code and its documentation differ

The model follows the code. In each case the exact condition under which the claim holds is proved,
and a concrete input is given at which it fails.

- `interior_point` is documented to return a point that is guaranteed inside. It does so exactly
  when the corner average is inside or an odd number of edges meet the scan line at its western-most
  crossing (`InteriorPointInside`). `NotchedOutline` is an outline of about two hectares, stored as
  it is, for which it does not.
- The journey lock is documented not to depend on the order in which stops are supplied. Stops are
  sorted by sequence alone, so this holds exactly when any two stops with one sequence have the same
  precinct and the same slot (`OrderFreeIff`); what the text does commit to is the order at each
  sequence (`V2LockOrderIff`). `TiedStops` is a list of two stops for which it fails.
- The key cache is documented to pick a rotation up within the cooldown. A fetch that was answered
  before the rotation and received after it restarts the cooldown, so the bound is the cooldown plus
  the latency of a fetch. `PublishedKeyFoundIff` is the exact condition for one lookup, and
  `LatencyDelaysPickup` is a run with a slow fetch.
- A newer session is documented to take over, and the previous device to fail from then on. Two
  sessions overlap when each has a token issued later than some token of the other. Some run that
  presents no token before its issue returns the row to a session that lost it exactly when two
  sessions overlap (`ReturnsIff`). In `RestampCanRevive` an older token of the holder overwrites the
  stored issue time; in `RefreshedTokenReturns` the deposed session presents a refreshed token.
- A session idle for longer than the timeout is documented to be refused. For a dispatcher, another
  sign-in of the same user deletes the row after seven idle days, and from then on only the issue
  time of the presented token is checked. So an over-idle session is refused exactly when its row is
  still there or its token is older than the cutoff (`UserIdleWindow`), and the row is gone exactly
  when such a sign-in swept it since (`RowGoneIff`). `SweepForgetsIdle` is a run that admits a
  session after eight idle days.
- For a driver the same happens through a takeover, since the one row then belongs to another
  session. An over-idle session is refused exactly when the last admitted request was its own, or
  its token is older than the cutoff, or no newer than the stored issue time (`DriverIdleWindow`).
  `TakeoverForgetsIdle` is a run that admits one.
- The retention sweep is documented not to undo the idle check. It leaves every answer alone exactly
  when no request presents, for a session whose row was swept, a token issued since the cutoff
  (`SweepInvisibleIff`). `SweepCanAdmit` is a run in which the sweep changes an answer.
- The ratchet is documented to tighten. On a tree that passes the check, an update raises a bound
  when the baseline was edited by hand to record a length below the limit, and only then
  (`TightensIff`). `HandEditedLoosens` is such a baseline.
- The source digest is documented to keep the end of a file apart from the next one's name. Streams
  are equal exactly when the paths and contents, cut at their NULs, give the same pieces in the same
  order (`StreamPiecesIff`). `NulHidesBoundary` gives two trees of Python files with one stream;
  without NULs there are none.
- A closed ring is documented to be accepted like its open form. Two forms are not treated alike: a
  ring of two corners, which is refused for different reasons, and a simple outline of at least
  three corners closed twice, of which only one closing corner is dropped. `FormsAgree` is the exact
  condition. `SquareClosedTwice` is a square of about 110 metres that is accepted when closed once
  and refused when closed twice.

## Assumptions

- Coordinates, times and statistics are exact reals. The cosine of a latitude enters as an arbitrary
  positive factor and pi as an arbitrary positive number.
- The inputs `NotchedOutline` and `ClosedTwice` are shown to be stored for every value of pi and of
  the cosine within a margin of the real ones near the equator (`NearEquator`).
- Distances are compared squared, which orders them in the same way.
- Readings of the clock are parameters of each step. The limiter and its store read the same clock.
- A key set fetched is the one that the provider published at some instant within the fetch. Lookups
  follow one another, because both functions are synchronous and block the event loop.
- The upsert of a dispatcher's row and the sweep are one step, because they are committed together.
- SHA-256 is uninterpreted: the texts and streams that are hashed are compared.
- Strings are sequences of Unicode scalar values, so they hold no lone surrogates.
- The database layer ends an outer savepoint by ending the inner ones first, and reports a
  savepoint's commit or rollback before its end, as the comments in `realtime.py` state.

## Model

| member | source | states |
|---|---|---|
| Outbox.Session.EnqueueEvent | backend/app/core/realtime.py:158-164 | an enqueued event joins the innermost open scope of the stack that the flat list and its marks stand for; nothing is published |
| Outbox.Session.DrainOutbox | backend/app/core/realtime.py:194-201 | the whole list is handed to the publisher, in order, and the outbox is gone, so a second commit publishes nothing again |
| Outbox.Session.OnCommit | backend/app/core/realtime.py:204-211 | with a savepoint open nothing happens; otherwise every queued event is published |
| Outbox.Session.OnRollback | backend/app/core/realtime.py:214-227 | cuts the list at the newest mark, or discards it when there is no mark |
| Outbox.Session.OnTransactionCreate | backend/app/core/realtime.py:230-234 | a savepoint is marked with the length of the list; any other transaction changes nothing |
| Outbox.Session.OnTransactionEnd | backend/app/core/realtime.py:237-244 | removes exactly the finished savepoint's mark |
| Outbox.Session.BeginNested | backend/app/core/realtime.py:230-234 | beginning a savepoint opens an empty scope on top of the stack |
| Outbox.Session.ReleaseInnermost | backend/app/core/realtime.py:204-211 | a released savepoint merges its scope into the one around it |
| Outbox.Session.RollbackInnermost | backend/app/core/realtime.py:214-226 | a rolled-back savepoint drops exactly its own scope |
| Outbox.Session.ReleaseTo | backend/app/core/realtime.py:204-244 | releasing any open savepoint, inner ones first, merges all their scopes into the one around it |
| Outbox.Session.RollbackTo | backend/app/core/realtime.py:214-244 | rolling back any open savepoint drops its scope and every scope inside it |
| Outbox.Session.CommitAll | backend/app/core/realtime.py:204-211 | the outermost commit publishes every scope, from the bottom up |
| Outbox.Session.RollbackAll | backend/app/core/realtime.py:214-243 | the outermost rollback publishes nothing and leaves no event and no mark |
| Outbox.Session.Perform | backend/app/core/realtime.py:158-244 | every operation on the flat list with marks does to the stack of scopes what its simple meaning says, whatever the nesting |
| Outbox.RunSession | backend/app/core/realtime.py:158-244 | over every well-formed run on a fresh session, what is published is exactly the surviving events |
| Outbox.Closed | backend/app/core/realtime.py:237-244 | forgetting the mark of the innermost savepoint is releasing its scope, and leaves the marks those of the remaining savepoints |
| Outbox.CutFlattens | backend/app/core/realtime.py:214-234 | cutting the flat list at its marks loses and reorders nothing |
| Scopes.RunPublishesSurviving | backend/app/core/realtime.py:12-23 | a run publishes exactly the events whose scope and every scope around it committed, in enqueue order, each once |
| Scopes.RollBackRestores | backend/app/core/realtime.py:214-226 | after rolling a savepoint back, outbox, open scopes and published events are those from before it began, whatever ran inside it |
| Scopes.BelowUntouched | backend/app/core/realtime.py:214-226 | while a savepoint is open nothing below its scope changes |
| Scopes.OutIffChainCommitted | backend/app/core/realtime.py:12-23 | following committed scopes outwards leads out exactly when the scope's whole chain committed |
| Plane.CrossIffMeet | backend/app/core/polygon.py:89-108 | _segments_cross is true exactly when the two closed segments share a point: crossing, touching, collinear overlap and single points included |
| Outlines.IsSimple | backend/app/core/polygon.py:111-128 | the nested loops, with their early exits, answer the test on projected edges |
| Outlines.SimpleIff | backend/app/core/polygon.py:111-128 | is_simple is true exactly for three or more distinct corners of which no two non-neighbouring edges share a point |
| Outlines.SimpleOfRing | backend/app/core/polygon.py:111-128 | being simple depends neither on the starting corner nor on the direction |
| OutlineCurve.SimpleCurveIff | backend/app/core/polygon.py:111-128 | the outlines that is_simple accepts are those of which neighbouring edges share exactly their common corner and others nothing, and the triangles without area |
| OutlineCurve.StoredIsCurve | backend/app/schemas/organisations.py:111-123 | so every stored outline is a simple closed curve: no edge folds back on the one before it |
| Geofence.Contains | backend/app/core/polygon.py:57-71 | the toggling loop answers whether the ray east crosses an odd number of edges |
| Geofence.InsideOfRing | backend/app/core/polygon.py:57-71 | contains depends neither on the starting corner nor on the direction |
| RayCasting.InsideOnChart | backend/app/core/polygon.py:28-38 | contains does not depend on the projection: scales and origin drop out |
| RayCasting.InsideAlongSegment | backend/app/core/polygon.py:57-71 | between two points whose segment passes through no corner and ends on no edge, contains changes exactly when the segment crosses an odd number of edges |
| RayCasting.InsideWithoutCrossing | backend/app/core/polygon.py:57-71 | a segment that touches no edge joins two points with the same answer |
| RayCasting.InsideInAnyDirection | backend/app/core/polygon.py:57-71 | a ray in any direction to beyond the corners counts an odd number of edges exactly for the points that contains accepts |
| RayCasting.CleanSegment | backend/app/core/polygon.py:57-71 | from every point on no edge some segment leads beyond the corners and passes through none |
| RayCasting.InsideByAnyRay | backend/app/core/polygon.py:57-71 | for every point on no edge contains is true exactly when some such segment crosses an odd number of edges, and exactly when all of them do |
| RayCasting.BeyondIsOutside | backend/app/core/polygon.py:57-71 | a point with all corners strictly on one side of it is never inside |
| Rings.RingParity | backend/app/core/polygon.py:46-47 | round a closed ring any property of the corners changes an even number of times |
| Geofence.ScanLineCrossings | backend/app/core/polygon.py:145-151 | the line through the corner average has an even number of crossings, none exactly when all corners share one latitude |
| Geofence.InteriorPointInside | backend/app/core/polygon.py:131-154 | interior_point fails exactly on an empty or flat ring; otherwise its answer is inside exactly when the corner average is, or an odd number of edges share the western-most crossing |
| Geofence.InteriorPointIs | backend/app/core/polygon.py:137-154 | the answer is the corner average when that is inside, and otherwise lies on its latitude, midway between the two western-most crossings |
| Geofence.InteriorPointErrors | backend/app/core/polygon.py:138-152 | it fails on the empty ring by dividing by zero and on a flat ring for want of crossings, and on no other |
| Geofence.InteriorPointWhenCrossingsDiffer | backend/app/core/polygon.py:131-154 | the documented guarantee holds whenever the two western-most crossings differ |
| NotchedOutline.InteriorPointCanBeOutside | backend/app/core/polygon.py:131-154 | and fails on a concrete outline with a corner on the scan line, which the validator stores as it is |
| Boundary.SegmentDistanceIsMinimum | backend/app/core/polygon.py:50-54 | the clamped projection gives the least squared distance over all points of the segment, and some point attains it |
| Boundary.BoundaryDistanceIsMinimum | backend/app/core/polygon.py:74-77 | the distance to the boundary is least over all boundary points, and attained |
| Boundary.PinFitsIff | backend/app/schemas/organisations.py:133-147 | a pin is accepted exactly when it is inside or some boundary point is within 100 metres; without an outline it is an error of its own |
| Boundary.MetresSqIs | backend/app/core/polygon.py:28-38 | squared distances are measured with 111320 metres per degree, east scaled by the cosine of the latitude |
| Outlines.ShoelaceOriginFree | backend/app/core/polygon.py:80-86 | the shoelace sum depends on the two scales of the projection and not on its origin |
| Outlines.ShoelaceIsFan | backend/app/core/polygon.py:85 | the shoelace sum is twice the signed area of the triangles into which the ring is cut from its first corner |
| Outlines.AreaOnChart | backend/app/core/polygon.py:80-86 | the area is that of the outline in degrees times the metres per degree in both directions at the corner average |
| Outlines.AreaOfRing | backend/app/core/polygon.py:80-86 | the area depends neither on the starting corner nor on the direction |
| Outlines.NormaliseIdempotent | backend/app/schemas/organisations.py:100-123 | a stored outline is its own normal form |
| OutlineRules.NormaliseIff | backend/app/schemas/organisations.py:100-123 | an outline is stored exactly when its ring, rounded to the nearest seventh decimal and opened once, has three corners, is simple and has an area from 400 square metres to that of a circle of 5000 metres, with the area given by the fan of triangles and both scales; and the exact condition of each error |
| Outlines.NormaliseOfRing | backend/app/schemas/organisations.py:100-123 | a stored outline is also valid from any other starting corner and in the other direction |
| Outlines.OpenAndClosedForms | backend/app/schemas/organisations.py:106-114 | the open and the closed form of a ring normalise alike exactly under a condition on the corner count, the first and the last corner |
| ClosedTwice.SquareClosedTwice | backend/app/schemas/organisations.py:106-114 | a square of about 110 metres is stored alike from its open form and closed once, and refused closed twice |
| Rounding.RoundToIdempotent | backend/app/schemas/organisations.py:97-106 | a rounded coordinate is its own rounding |
| Rounding.RoundHalfEvenIff | backend/app/schemas/organisations.py:106 | the rounded value is the nearest whole number, the even one of two that are equally near |
| SingleDevice.DriverSessions.Upsert | backend/app/auth/sessions.py:125-153 | one guarded upsert: returns a row exactly when there is none, the session is the same or the issue time strictly newer, and only then writes the claim |
| SingleDevice.DriverSessions.EnforceSingleDevice | backend/app/auth/sessions.py:88-166 | the early exits, the read, the skip and the upsert do one request of the model on the driver's row and touch no other driver |
| SingleDevice.Linearizable | backend/app/auth/sessions.py:107-153 | in every interleaving of reads and writes the answers and the final row are those of requests served one at a time by one atomic rule, in the order in which they end |
| SingleDevice.EndsOnce | backend/app/auth/sessions.py:107-153 | every request ends at most once, with the answer it was given |
| SingleDevice.StepIsAtomic | backend/app/auth/sessions.py:113-153 | the step at which a request ends obeys the atomic rule; other steps leave the row alone |
| SingleDevice.IssueTimeStep | backend/app/auth/sessions.py:139-147 | a change of session strictly raises the stored issue time; it falls exactly when the holder is stamped again by an older token |
| SingleDevice.IssueTimeRises | backend/app/auth/sessions.py:139-147 | with one issue time per session the row passes only to sessions issued later and later |
| SingleDevice.ReturnsIff | backend/app/auth/sessions.py:93-147 | some run that presents no token before its issue gives the row back to a session that lost it exactly when two sessions each have a token issued later than one of the other's |
| SingleDevice.OneIssueTimeNoOverlap | backend/app/auth/sessions.py:93-99 | sessions whose tokens are never refreshed do not overlap, so for them a takeover is final |
| SingleDevice.NoRevival | backend/app/auth/sessions.py:93-99 | without such an overlap a deposed session never holds the row again, and every step its requests take afterwards refuses them |
| SingleDevice.TakeoversBounded | backend/app/auth/sessions.py:93-99 | without such an overlap there are fewer takeovers than distinct sessions, in any run and with any number of refreshed tokens |
| SingleDevice.RestampCanRevive | backend/app/auth/sessions.py:138-143 | a run in which a deposed session returns with its old token, because a restamp overwrites the issue time |
| SingleDevice.RefreshedTokenReturns | backend/app/auth/sessions.py:110-147 | a run in which a deposed session takes the row back with a refreshed token, no restamp being involved |
| IdleTimeout.UserSessions.EnforceUserIdleTimeout | backend/app/auth/sessions.py:218-280 | the early exits, the upsert and the sweep do one request of the model |
| IdleTimeout.SweepStep | backend/app/auth/sessions.py:234-276 | a step is answered alike with and without the sweep exactly when it does not present, for a swept row, a token issued within the timeout |
| IdleTimeout.SweepInvisibleIff | backend/app/auth/sessions.py:46-50 | over every run the two systems give the same answers exactly when no request presents, for a session with no row that a sibling sign-in swept before, a token issued within the timeout |
| IdleTimeout.SweepCanAdmit | backend/app/auth/sessions.py:46-50 | a run whose last request the sweep lets through and the system without it refuses |
| IdleTimeout.SweepChangesNoDecision | backend/app/auth/sessions.py:46-50 | in particular the sweep decides nothing when tokens precede the stamps of their rows and the timeout is at most the retention period |
| ActivityStamps.CurrentDriver | backend/app/auth/dependencies.py:317-324 | the idle check and then the device check, on the same table, serve one driver request with the answer and the row of the serial model |
| ActivityStamps.OneRequestIsClaim | backend/app/auth/sessions.py:107-153 | served alone, the guarded upsert confirms what the advisory read decided |
| ActivityStamps.DriverStampLag | backend/app/auth/sessions.py:116-142 | the row belongs to the last admitted request's session and lags it by less than the write interval |
| ActivityStamps.RowIsLastStamp | backend/app/auth/sessions.py:113-153 | there is a row exactly when some request was stamped, and it holds the session, issue time and stamp of the last such request |
| ActivityStamps.DriverAnswers | backend/app/auth/sessions.py:88-215 | which of the three answers every session gets, with no row, its own row or another's: its own row decides by the stamp alone, otherwise the token is idle exactly when issued before the cutoff, and else superseded exactly when not newer than the stored issue time |
| ActivityStamps.NewSessionIdle | backend/app/auth/sessions.py:205-211 | a session never admitted before is answered idle exactly when its token was issued before the cutoff |
| ActivityStamps.DriverIdleWindow | backend/app/auth/sessions.py:202-215 | after any requests of any sessions: a driver session idle longer than the timeout is refused exactly when the driver's last admitted request was its own, or its token is older than the cutoff, or no newer than the stored issue time; one idle for at most the timeout less 60 seconds is admitted exactly when that request was its own, or its token is neither |
| ActivityStamps.TakeoverForgetsIdle | backend/app/auth/sessions.py:206-211 | a run in which a session idle for days is admitted after a takeover |
| ActivityStamps.StampFirstNeverExpires | backend/app/auth/dependencies.py:320-324 | in the other order the idle check would read the stamp just made and could not fire |
| DispatcherWindow.ServeIsRequest | backend/app/auth/sessions.py:218-280 | a request served alone leaves the table and the answer that the interleaved system gives it |
| DispatcherWindow.SerialRun | backend/app/auth/sessions.py:218-280 | a serial run of the interleaved system, sweep included, ends with the table and the answers of serving the requests one by one |
| DispatcherWindow.UserStampLag | backend/app/auth/sessions.py:81-85 | after any requests of any sessions, a stored row carries the last admitted request of its session and lags it by less than the write interval |
| DispatcherWindow.UserIdleWindow | backend/app/auth/sessions.py:237-246 | after any requests of any sessions: a dispatcher session idle longer than the timeout is refused exactly when its row is still there or its token is older than the cutoff; one idle for at most the timeout less 60 seconds is admitted exactly when its row is there or its token is not older; its row is there when the timeout is at most the retention period |
| DispatcherWindow.NewSessionAdmitted | backend/app/auth/sessions.py:237-240 | a dispatcher session not admitted before has no row and is admitted exactly when its token is not older than the cutoff |
| DispatcherWindow.KnownSessionServed | backend/app/auth/sessions.py:241-265 | a session with a row is admitted by its stamp, which is then renewed from 60 seconds on; user and issue time stay |
| DispatcherWindow.SignInServed | backend/app/auth/sessions.py:253-276 | a sign-in stores its user, issue time and time of request, and deletes exactly the rows of that user stamped more than seven days before |
| DispatcherWindow.RowsAreStamped | backend/app/auth/sessions.py:253-265 | every row carries the user and the issue time of the request that created it and the time of one that stamped it |
| DispatcherWindow.RowGoneIff | backend/app/auth/sessions.py:267-276 | a session that was admitted has no row exactly when, since its last admitted request, a sign-in of its user under another session found its stored stamp older than the retention period |
| DispatcherWindow.SweepForgetsIdle | backend/app/auth/sessions.py:237-276 | a run in which a session idle for eight days is admitted again with a fresh token |
| RateLimiter.Redis.IncrAndTtl | backend/app/core/rate_limit.py:97-100 | INCR and TTL as one step: a live key counts one more and keeps its expiry; an absent or expired key starts again at one without an expiry; no other key changes |
| RateLimiter.Redis.SetExpiry | backend/app/core/rate_limit.py:102-103 | EXPIRE gives a live key its expiry and keeps its count; an absent or expired key and every other key stay as they are |
| RateLimiter.Redis.CountAndCheck | backend/app/core/rate_limit.py:87-111 | one request counts itself under the name, the identity and the window number floor(seconds / length), sets a missing expiry, and is allowed up to the limit or whenever a command fails |
| RateLimiter.NoEarlyExpiry | backend/app/core/rate_limit.py:94-103 | in every interleaving each expiry, set or still to be set, falls at the end of its window or later |
| RateLimiter.ExpiryWasSet | backend/app/core/rate_limit.py:102-103 | every expiry of a counter is one window length after some EXPIRE of its key |
| RateLimiter.ExpiriesAreOwed | backend/app/core/rate_limit.py:97-103 | each request that finds its counter without an expiry sends EXPIRE once, and no other EXPIRE is sent |
| RateLimiter.CountsEveryHit | backend/app/core/rate_limit.py:77-103 | while its window lasts, the counter of a key stands at the number of its requests |
| RateLimiter.WindowAdmits | backend/app/core/rate_limit.py:87-111 | for every limit name, identity and window number w: of the requests of that identity made from w to w + 1 window lengths, exactly the smaller of their number and the limit are allowed |
| RateLimiter.OthersDoNotMatter | backend/app/core/rate_limit.py:77-85 | requests of other identities, or under other limit names, change no answer: it is the one given after the own requests alone |
| RateLimiter.KeyTextIff | backend/app/core/rate_limit.py:84 | two key texts are equal exactly when name, identity and window are, whatever separators the identity holds; the limit names hold none |
| RateLimiter.IntervalAdmitsTwiceAtMost | backend/app/core/rate_limit.py:9-11 | any interval of one window length admits at most twice the limit of one identity |
| JwksCache.KeyCache.GetJwks | backend/app/auth/dependencies.py:97-103 | a fresh cache is returned unchanged; a stale one is replaced by a successful fetch and kept when the fetch raises |
| JwksCache.KeyCache.GetSigningKey | backend/app/auth/dependencies.py:106-124 | lookup, one forced refresh outside the cooldown, second lookup, error: one lookup of the model |
| JwksCache.Find | backend/app/auth/dependencies.py:108-119 | the first key with the kid, or none |
| JwksCache.FirstWithKidIs | backend/app/auth/dependencies.py:108-119 | what is found is a key with the kid before which no other has it; nothing is found exactly when none has it |
| JwksCache.FetchesSpaced | backend/app/auth/dependencies.py:84-87 | in every run successful fetches are at least the cooldown apart |
| JwksCache.CacheIsPublished | backend/app/auth/dependencies.py:97-103 | the cache always holds what the provider published when it answered |
| JwksCache.FoundKeyIsFresh | backend/app/auth/dependencies.py:106-119 | a returned key has the requested kid and comes from a published set fetched within the TTL |
| JwksCache.LookupFromLastFetch | backend/app/auth/dependencies.py:97-124 | a set received at most an hour ago is served without a fetch; the answer of a lookup, and its fetches, follow from the last answered fetch alone |
| JwksCache.PublishedKeyFoundIff | backend/app/auth/dependencies.py:106-124 | a published key is found exactly when the cache is stale, holds it or has cooled down, and the fetch then made succeeds; it is called invalid only while an older set is within its cooldown |
| JwksCache.PublishedKeyIsFound | backend/app/auth/dependencies.py:84-87 | if no answer took longer than the latency to arrive, a key published and kept is never called invalid a cooldown plus the latency later: the lookup finds it, unless the fetch it needs raises |
| JwksCache.LatencyDelaysPickup | backend/app/auth/dependencies.py:84-87 | the cooldown alone is not enough: a slow fetch can hide a key for longer |
| Json.LoadDump | backend/app/crypto/hashing.py:48-50 | reading back a written value gives the value itself, escapes and surrogate pairs included |
| CanonicalJson.KeysInOrder | backend/app/crypto/hashing.py:48-50 | the keys of a written dict come in the order of their code points |
| CanonicalJson.CanonicalIff | backend/app/crypto/hashing.py:48-50 | two values have the same text exactly when they are equal with dicts compared without order |
| TextOrder.TextLeIff | backend/app/crypto/hashing.py:48-50 | a text comes before another exactly when it is a prefix of it or has the smaller code point at the first difference |
| WrittenForms.ContainersWritten | backend/app/crypto/hashing.py:48-50 | lists and dicts are written without spaces, with quoted keys |
| WrittenForms.ConstantsWritten | backend/app/crypto/hashing.py:48-50 | null, the empty containers and integers, negative ones with a sign |
| WrittenForms.DecimalIs | backend/app/crypto/hashing.py:48-50 | integers are written in decimal without leading zeros |
| WrittenForms.UnitEscapes | backend/app/crypto/hashing.py:48-50 | printable ASCII is written as it is, every other character as four hexadecimal digits or as the surrogate pair that stands for it |
| WrittenForms.UnitIs | backend/app/crypto/hashing.py:48-50 | the four digits of an escaped character have its value |
| WrittenForms.ShortEscapes | backend/app/crypto/hashing.py:48-50 | the characters with an escape of one letter |
| Numerals.FixedIsDigits | backend/app/crypto/hashing.py:62-70 | a number of fixed width is written with the digits of which it is the value |
| Numerals.DigitIs | backend/app/crypto/hashing.py:100-106 | digits are 0 to 9 and then a to f, in lower case |
| Timestamps.CivilOfIsInverse | backend/app/crypto/hashing.py:62-70 | conversion to civil UTC time keeps the instant |
| Timestamps.UtcTextIff | backend/app/crypto/hashing.py:62-70 | two times have the same UTC text exactly when they denote the same instant, naive ones read as UTC |
| WrittenForms.ToUtcIs | backend/app/crypto/hashing.py:62-70 | conversion subtracts the offset, gives a valid civil time with offset zero, and fails exactly outside the years 1 to 9999 |
| WrittenForms.CalendarIs | backend/app/crypto/hashing.py:70 | days are numbered in the order of the calendar, with its months and leap years |
| WrittenForms.IsoIs | backend/app/crypto/hashing.py:70 | the fields are written in order, the microseconds only when there are any |
| WrittenForms.TwoIs | backend/app/crypto/hashing.py:70 | fields of two digits are tens and units |
| WrittenForms.OffsetIs | backend/app/crypto/hashing.py:70 | offsets are written with their sign, hours and minutes |
| PayloadKeys.UtcIsoIs | backend/app/crypto/hashing.py:62-70 | the text of a time names its instant in UTC, ends in +00:00 and is absent exactly for no time |
| Uuids.TextInjective | backend/app/crypto/hashing.py:100-106 | two ids have the same text exactly when they are equal |
| Uuids.TextIs | backend/app/crypto/hashing.py:100-106 | an id is written as 32 hexadecimal digits with hyphens after 8, 12, 16 and 20 of them |
| JourneyLock.V1TextIff | backend/app/crypto/hashing.py:99-113 | v1 texts are equal exactly when all written values are |
| PayloadKeys.PayloadV1Says | backend/app/crypto/hashing.py:73-113 | the payload has exactly its thirteen keys, and under each the value of the trip that the key names; it fails exactly when a time is out of range |
| JourneyLock.V2TextIff | backend/app/crypto/hashing.py:144-160 | v2 texts are equal exactly when all written values and the ordered stops are |
| PayloadKeys.PayloadV2Says | backend/app/crypto/hashing.py:144-160 | the second version has the same thirteen bindings, its version number, and the stops in order of sequence, each with exactly its three keys |
| PayloadKeys.PayloadV2OkIff | backend/app/crypto/hashing.py:144-158 | it fails exactly when the first version does or the slot of a stop is out of range |
| JourneyLock.GenerationTextsDiffer | backend/app/crypto/hashing.py:151-160 | the keys of v2 alone keep its texts apart from those of v1 |
| JourneyCommitment.TrailersIff | backend/app/crypto/hashing.py:96-103 | the sorted trailer ids are equal exactly when the trailers are, in any order |
| JourneyCommitment.V1LockIff | backend/app/crypto/hashing.py:73-113 | two v1 locks have the same text exactly when they commit to the same trip, trailers in any order and times as instants |
| JourneyCommitment.V2LockIff | backend/app/crypto/hashing.py:116-160 | two v2 locks have the same text exactly when they also commit to the same stops in order of sequence |
| JourneyCommitment.GenerationsDiffer | backend/app/crypto/hashing.py:43-45 | no v1 lock has the text of a v2 lock |
| JourneyCommitment.V2LockIgnoresOrder | backend/app/crypto/hashing.py:135-137 | when stops that share a sequence agree, two v2 locks have the same text exactly when trip and stops agree, in whatever order the stops were supplied |
| JourneyCommitment.OrderFreeIff | backend/app/crypto/hashing.py:135-158 | every order of a list of stops gives the same text exactly when any two of them that share a sequence agree in precinct and slot |
| JourneyCommitment.TieShows | backend/app/crypto/hashing.py:158 | swapping two differing stops that share a sequence changes the text, whatever the other stops are |
| JourneyCommitment.TiedStops | backend/app/crypto/hashing.py:135-158 | a concrete list of two stops whose order shows, and one with a harmless tie |
| StopOrder.SortStable | backend/app/crypto/hashing.py:158 | sorting by sequence keeps the order of stops that share one |
| StopOrder.V2LockOrderIff | backend/app/crypto/hashing.py:116-160 | for any lists of stops, two v2 locks have the same text exactly when trip agrees and, at every sequence, the same stops come in the same order |
| Base64.RoundTrip | backend/app/core/pagination.py:28-33 | bytes written in the URL-safe alphabet are read back after mapping it to the standard one |
| Base64.AlphabetIs | backend/app/core/pagination.py:28-33 | the 64 characters in order, of which the last two are mapped to + and / |
| Base64.DecodeAccepts | backend/app/core/pagination.py:70 | strict decoding accepts exactly the texts of whole groups of four alphabet characters, with at most two of padding at the end |
| Base64.AlphabetRead | backend/app/core/pagination.py:70 | the characters read are letters, digits, + and /, each with the value it is written for |
| Timestamps.IsoRoundTrip | backend/app/core/pagination.py:53 | fromisoformat reads back every field and the offset that isoformat wrote |
| Uuids.RoundTrip | backend/app/core/pagination.py:81 | an id is read back from its text |
| Uuids.ParseAccepts | backend/app/core/pagination.py:81 | an id is read exactly from 32 hexadecimal digits, hyphens left out, with the value of those digits |
| Numerals.DigitRead | backend/app/core/pagination.py:81 | hexadecimal digits are read in lower and upper case, each with its value |
| Cursor.CursorLength | backend/app/core/pagination.py:24-28 | an encoded cursor has at most 140 characters, so the length guard never rejects it |
| Cursor.CursorRoundTrip | backend/app/core/pagination.py:50-95 | decoding an encoded cursor gives the same position for every time with an offset, and the error for a naive one |
| Cursor.DecodeIff | backend/app/core/pagination.py:59-95 | a position is decoded exactly from a text of at most 512 characters that carries a dict of the two keys, of which the last created_at is a time with an offset and the last id an id |
| SourceDigest.FeedSources | backend/scripts/load_db_timeouts.py:68-78 | the nested loops feed every path and every normalised content, each with its NUL, in the order listed |
| SourceDigest.StreamIff | backend/scripts/load_db_timeouts.py:68-77 | without NUL in paths and contents, equal streams mean equal lists of paths and contents up to line endings |
| SourceDigest.StreamPiecesIff | backend/scripts/load_db_timeouts.py:68-77 | for any paths and contents, streams are equal exactly when cutting paths and normalised contents at their NULs gives the same pieces in the same order |
| SourceDigest.NulHidesBoundary | backend/scripts/load_db_timeouts.py:70-77 | with a NUL in a content two different trees of Python files feed the same stream |
| SourceDigest.LineEndingsDoNotMatter | backend/scripts/load_db_timeouts.py:69-77 | CR LF and LF checkouts of CR-free content normalise alike |
| SourceDigest.NormaliseIs | backend/scripts/load_db_timeouts.py:77 | every CR LF becomes LF, from left to right, and nothing else changes |
| SourceDigest.CheckoutsAgree | backend/scripts/load_db_timeouts.py:69-77 | so both checkouts of a CR-free tree feed the same stream |
| RouteTrail.Flush | backend/app/reporting/route_svg.py:95-98 | a run of two or more points becomes one polyline, a shorter one nothing |
| RouteTrail.DrawPair | backend/app/reporting/route_svg.py:100-112 | one pass of the loop draws the next pair or adds it to the run, and loses nothing drawn before |
| RouteTrail.DrawTimed | backend/app/reporting/route_svg.py:100-114 | the loop draws every consecutive pair of the timed fixes and flushes the last run |
| RouteTrail.TrailElements | backend/app/reporting/route_svg.py:85-114 | flattening the elements gives every consecutive pair of phone fixes in time order exactly once, dashed exactly across a gap, in polylines as long as possible |
| RouteTrail.TimedIs | backend/app/reporting/route_svg.py:88-91 | the fixes drawn are those of the phone with a time, each as often as recorded, the earlier ones first |
| RouteTrail.SpansGapIff | backend/app/reporting/route_svg.py:72-73 | a stretch, an instant included, spans a gap exactly when the two share an instant that lies strictly inside one of them |
| RouteFrame.FramedInside | backend/app/reporting/route_svg.py:43-59 | every point the frame is made for maps inside the padded canvas, before rounding and after |
| RouteFrame.PixelIsNearest | backend/app/reporting/route_svg.py:56-59 | a pixel is the exact place rounded to the nearest tenth |
| RouteFrame.AspectKept | backend/app/reporting/route_svg.py:56-59 | one scale for both axes, east to the right and north up |
| RouteFrame.ScaleIsTight | backend/app/reporting/route_svg.py:49-51 | the scale is the largest that fits: one axis fills its room |
| RouteFrame.FrameIsCentred | backend/app/reporting/route_svg.py:52-54 | the middle of the ground covered lands in the middle of the canvas |
| RouteFrame.ScaleBarFits | backend/app/reporting/route_svg.py:62-65 | the scale bar is a 1-2-5 length, at most its target and more than two fifths of it |
| RouteFrame.ScaleBarGreatest | backend/app/reporting/route_svg.py:65 | no longer 1-2-5 length is within the target |
| OrderStats.PercentileForgetsOrder | backend/app/core/stats.py:32-49 | a percentile depends on the observations and not on their order |
| OrderStats.PercentileMonotone | backend/app/core/stats.py:46-49 | percentiles rise with the fraction |
| OrderStats.PercentileEnds | backend/app/core/stats.py:45-49 | they start at the minimum and end at the maximum |
| OrderStats.PercentileInterpolates | backend/app/core/stats.py:33-37 | between neighbouring ranks they rise in a straight line |
| OrderStats.PercentileIsAtRank | backend/app/core/stats.py:32-49 | the percentile lies at rank fraction times (n - 1) of the sorted observations |
| OrderStats.PercentileErrors | backend/app/core/stats.py:40-43 | a fraction outside 0 to 1 is an error, and no observations give none |
| OrderStats.StatsForgetOrder | backend/app/schemas/analytics.py:157-167 | every statistic depends on the observations and not on their order |
| OrderStats.StatsDescribe | backend/app/schemas/analytics.py:157-167 | each statistic described from the multiset of the observations: their number, mean, least, greatest, the value at rank (n - 1) / 2 and at nine tenths of n - 1 |
| OrderStats.StatsInOrder | backend/app/schemas/analytics.py:157-167 | all statistics are absent exactly for no observations; otherwise minimum, median, P90 and maximum come in that order |
| LanePools.LanePool.Add | backend/app/analytics/lane_metrics.py:70-73 | a row's counts are added and its observations appended to the pool, in place |
| LanePools.FoldRows | backend/app/analytics/lane_metrics.py:67-73 | the fold leaves one pool per lane, in order of first appearance, each with all rows of its lane |
| LanePools.GetLaneMetrics | backend/app/analytics/lane_metrics.py:67-85 | for each lane, the counts are the sums over its rows and both groups of statistics describe the union of the observations of its rows, transit times as transit times and schedule deltas as schedule deltas |
| LanePools.LanesAreThoseOfRows | backend/app/analytics/lane_metrics.py:69 | a lane is reported exactly when some row is about it |
| LanePools.LanesByFirstRow | backend/app/analytics/lane_metrics.py:67-69 | lanes come in the order of their first rows |
| LanePools.ObservedConcat | backend/app/analytics/lane_metrics.py:39-42 | pooling two lists of rows adds their counts and unites their observations |
| LanePools.SplitMonth | backend/app/analytics/lane_metrics.py:39-42 | splitting a month's row in two in any way changes no lane's metrics |
| LanePools.ReorderMonths | backend/app/analytics/lane_metrics.py:39-42 | listing the rows in another order changes no lane's metrics |
| LanePools.DensityOfSums | backend/app/schemas/analytics.py:185-188 | a lane's exception density is the ratio of its summed exceptions to its summed trips, absent exactly for no trips |
| FunctionNames.FunctionCollector.Visit | backend/scripts/check_structure.py:56-83 | visiting a subtree lists its functions after those listed before, and leaves the scope as it was |
| FunctionNames.FunctionCollector.VisitFunction | backend/scripts/check_structure.py:63-72 | the two entries pushed for a function are popped again |
| FunctionNames.FunctionCollector.VisitClass | backend/scripts/check_structure.py:80-83 | so is the one pushed for a class |
| FunctionNames.NamesIff | backend/scripts/check_structure.py:56-83 | the names listed are exactly those of functions found at some place in the tree, with the names of what encloses them |
| FunctionNames.ClassNames | backend/scripts/check_structure.py:63-83 | a method, and a function nested in it, with their full names and line counts |
| FunctionNames.KeyIff | backend/scripts/check_structure.py:107 | two keys are equal exactly when file and enclosing definitions are |
| FunctionNames.DefinedPartsPlain | backend/scripts/check_structure.py:64-70 | the parts of a qualified name hold no separator |
| FunctionNames.NestedIsNoMethod | backend/scripts/check_structure.py:68-70 | a nested function never shares a key with a method |
| StructureRatchet.MeasureFunctions | backend/scripts/check_structure.py:90-109 | the loops compute the longest length per key, or stop at the first file that cannot be parsed |
| StructureRatchet.MeasuredIsLongest | backend/scripts/check_structure.py:91-95 | a key is measured exactly when a function is defined under it, with the length of the longest |
| StructureRatchet.Root.Check | backend/scripts/check_structure.py:145-179 | the loops report violations and notices in order of keys, or the missing baseline, or the file that cannot be parsed |
| StructureRatchet.ReportIff | backend/scripts/check_structure.py:154-177 | a finding is reported, on its side, exactly when it is about a measured function or a recorded file |
| RatchetRules.ReportedExactly | backend/scripts/check_structure.py:154-177 | each kind of finding is reported exactly on the lengths that call for it, with both lengths, and on its side of the report |
| RatchetRules.CheckedReports | backend/scripts/check_structure.py:145-179 | a check reports on the measured functions and on the recorded files that still exist, with their line counts |
| RatchetRules.ErrorsIff | backend/scripts/check_structure.py:90-209 | check and update fail exactly with the first file that cannot be parsed, and check before that when there is no baseline |
| StructureRatchet.ReportInOrder | backend/scripts/check_structure.py:145-179 | the report is that on functions and then that on files, each with violations and notices in order of their keys and no key twice |
| StructureRatchet.CheckPassesIff | backend/scripts/check_structure.py:12-15 | no violation exactly when every function and every tracked file is within its bound |
| StructureRatchet.CheckSilentIff | backend/scripts/check_structure.py:17-18 | no violation and no notice exactly when the baseline is up to date |
| StructureRatchet.DescribeSection | backend/scripts/check_structure.py:182-197 | the three loops print additions, removals and changes, each in order of keys |
| StructureRatchet.DescribedIff | backend/scripts/check_structure.py:182-197 | what is printed is every difference between the two baselines and nothing else |
| RatchetRules.DescribedExactly | backend/scripts/check_structure.py:182-197 | each kind of change is printed exactly for the keys and lengths that show it, in the section it belongs to |
| RatchetRules.SectionInOrder | backend/scripts/check_structure.py:188-196 | a section prints additions, then removals, then changes, each in order of keys |
| StructureRatchet.Root.Update | backend/scripts/check_structure.py:200-209 | the new baseline and its description are written together; a tree that cannot be parsed leaves the baseline alone |
| RatchetRules.UpdatedExactly | backend/scripts/check_structure.py:121-131 | the new baseline holds exactly the functions over 100 lines and the tracked files that exist, with their lengths |
| StructureRatchet.UpdateThenSilent | backend/scripts/check_structure.py:145-209 | right after an update the check on the same tree has nothing to say |
| StructureRatchet.TightensIff | backend/scripts/check_structure.py:200-209 | on a tree that passes, an update raises no bound exactly when no recorded length is below the limit |
| StructureRatchet.HandEditedLoosens | backend/scripts/check_structure.py:200-209 | a passing tree and a hand-edited baseline for which an update raises a bound |
| StructureRatchet.RaisesArePrinted | backend/scripts/check_structure.py:24-26 | on any tree an update raises the bound of a function exactly when it prints it as added or grown, or as removed with a length below the limit |
| StructureRatchet.BoundsOnlyFall | backend/scripts/check_structure.py:1-18 | over every run of edits and of updates on passing trees, bounds only fall and no file comes under tracking |
| StructureRatchet.RatchetHolds | backend/scripts/check_structure.py:1-18 | whenever the check passes after such a run, every function and tracked file is within the bound it started with |
| StructureRatchet.UntrackedStaysUntracked | backend/scripts/check_structure.py:203-206 | a file that has left tracking is never bounded again |

## Left out

- Closing a session, and a rollback with no transaction begun: no callback fires, so the outbox stays; neither is an operation of the model.
- Registration of the listeners, the event loop, Redis Pub/Sub and the publishing tasks: delivery after the drain is not modelled, and publishing is appending to a list.
- Floating-point rounding in the geometry, the frame and the statistics, and the trigonometry behind the metres per degree.
- InteriorPointInside: says when the answer is inside by ray casting; a point exactly on an edge may count either way, as the source says itself.
- InsideAlongSegment: says nothing about segments through a corner or along an edge, where the count of crossings has no meaning.
- Bounds on latitude, longitude and the number of corners, and the messages of the errors.
- Parsing of the claims of a token: a token without a session is modelled as one without claims.
- DriverIdleWindow: is about requests served one after the other; the interleaved system is covered by the linearizability of the device rule.
- UserIdleWindow: is about requests served one after the other, each of which SerialRun finds in the interleaved system.
- SweepChangesNoDecision: is the case of tokens no newer than the stamps of their rows, which a refreshed token leaves; SweepInvisibleIff is the exact statement. The account checks before it are not modelled.
- CountAndCheck: models failing commands for one request; the bounds over runs are for a store that answers.
- The middleware, the choice of the identity and the response of the limiter.
- PublishedKeyIsFound: adds the latency of an answer to the cooldown, without which it is false (LatencyDelaysPickup), and says nothing about retries when a fetch raises.
- KeyTextIff: is about limit names without a colon, which all limits have.
- V2LockIgnoresOrder: is the case of stops that agree where they share a sequence; V2LockOrderIff is the statement for all lists.
- Signature checks and every other use of a signing key.
- CanonicalIff: covers null, integers, strings, lists and dicts; payloads hold no floating-point numbers and no booleans.
- LoadDump: the reader accepts compact JSON without floating-point numbers, booleans and whitespace, which is what the writer produces.
- IsoRoundTrip: the reader accepts the form that isoformat writes, and none of the other ISO forms.
- CursorRoundTrip: of malformed cursors only the rules of the decoder itself are modelled; some texts that the libraries accept are refused here.
- The listing of a source directory: files come in the order given, and SHA-256 itself is not modelled.
- SVG markup, the text of coordinates and labels: elements hold pixels.
- The query, the filters and the range check of the lane metrics: the rows are the input.
- StreamIff: is the case of paths and contents without NULs; StreamPiecesIff is the statement for all.
- ObservedConcat: totals are compared with observations as multisets; the mean is a sum over reals, where order does not matter.
- Reading source files and splitting them into lines: a tree lists parsed modules and line counts.
- The recorded limit in the baseline file, which the check does not read either.
