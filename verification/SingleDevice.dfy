/** One active device per driver, under concurrent requests. Times are seconds. */
module SingleDevice {
  // A request reads the driver's session row, decides, and may later write it with a guarded upsert;
  // requests interleave freely between the two statements.

  import opened Reals
  import opened Wrappers

  const SESSION_ACTIVITY_WRITE_INTERVAL_SECONDS := 60.0

  /** The session a token claims, and when the token was issued. */
  datatype Token = Token(session: string, issuedAt: real)

  datatype Row = Row(session: string, issuedAt: real, lastSeenAt: real)

  // ---- The statements of one request ---------------------------------------------------

  /** The advisory read already refuses the token. */
  predicate RefusedOnRead(current: Option<Row>, token: Token) {
    current.Some? && current.value.session != token.session && token.issuedAt <= current.value.issuedAt
  }

  predicate RecentlyStamped(lastSeenAt: real, now: real) {
    lastSeenAt > now - SESSION_ACTIVITY_WRITE_INTERVAL_SECONDS
  }

  /** The token already holds the row, and the row was stamped moments ago. */
  predicate SkipsWrite(current: Option<Row>, token: Token, now: real) {
    current.Some? && current.value.session == token.session && RecentlyStamped(current.value.lastSeenAt, now)
  }

  /** The WHERE clause of the upsert, re-tested at the moment of writing. */
  predicate UpsertMatches(current: Option<Row>, token: Token) {
    current.None? || current.value.session == token.session || current.value.issuedAt < token.issuedAt
  }

  function Claim(token: Token, now: real): Row { Row(token.session, token.issuedAt, now) }

  /** The table of driver sessions, keyed by driver. */
  class DriverSessions<Driver(==)> {
    var rows: map<Driver, Row>

    function Current(driver: Driver): Option<Row>
      reads this
    {
      if driver in rows then Some(rows[driver]) else None
    }

    constructor ()
      ensures rows == map[]
    {
      rows := map[];
    }

    /** INSERT .. ON CONFLICT DO UPDATE .. WHERE .. RETURNING: one atomic statement. */
    method Upsert(driver: Driver, token: Token, now: real) returns (returned: bool)
      modifies this
      ensures returned == UpsertMatches(old(Current(driver)), token)
      ensures rows == if returned then old(rows)[driver := Claim(token, now)] else old(rows)
    {
      if driver !in rows {
        rows := rows[driver := Claim(token, now)];
        return true;
      }
      var row := rows[driver];
      if row.session == token.session || row.issuedAt < token.issuedAt {
        rows := rows[driver := Claim(token, now)];
        return true;
      }
      return false;
    }

    /** One request with nothing interleaved. A token without claims is let through unchecked. */
    method EnforceSingleDevice(driver: Driver, claimed: Option<Token>, readAt: real, writtenAt: real)
      returns (admitted: bool)
      modifies this
      ensures claimed.None? ==> admitted && rows == old(rows)
      ensures claimed.Some? ==>
                OneRequest(old(Current(driver)), claimed.value, readAt, writtenAt)
                == State(Current(driver), map[0 := Done(admitted)])
      ensures rows - {driver} == old(rows) - {driver}
    {
      if claimed.None? {
        return true;
      }
      var token := claimed.value;
      var current := Current(driver);
      if current.Some? && current.value.session != token.session && token.issuedAt <= current.value.issuedAt {
        return false;
      }
      if current.Some? && current.value.session == token.session && RecentlyStamped(current.value.lastSeenAt, readAt) {
        return true;
      }
      admitted := Upsert(driver, token, writtenAt);
    }
  }

  // ---- Interleaved requests of one driver ------------------------------------------------

  datatype Phase = Pending | Done(admitted: bool)

  /** The driver's row, and how far every request that has begun has come. */
  datatype State = State(row: Option<Row>, phases: map<nat, Phase>)

  /** A request's read, or its later write, at a time by its own clock. */
  datatype Step = Read(id: nat, now: real) | Write(id: nat, now: real)

  predicate Enabled(s: State, step: Step) {
    match step
    case Read(id, _) => id !in s.phases
    case Write(id, _) => id in s.phases && s.phases[id] == Pending
  }

  /** A step that is not enabled does nothing. */
  function Perform(s: State, step: Step, token: nat -> Token): State {
    if !Enabled(s, step) then s
    else
      match step
      case Read(id, now) =>
        s.(phases := s.phases[id := if RefusedOnRead(s.row, token(id)) then Done(false)
                                    else if SkipsWrite(s.row, token(id), now) then Done(true)
                                    else Pending])
      case Write(id, now) =>
        if UpsertMatches(s.row, token(id)) then State(Some(Claim(token(id), now)), s.phases[id := Done(true)])
        else s.(phases := s.phases[id := Done(false)])
  }

  const INITIAL := State(None, map[])

  function Run(steps: seq<Step>, token: nat -> Token): State {
    if steps == [] then INITIAL
    else Perform(Run(steps[..|steps| - 1], token), steps[|steps| - 1], token)
  }

  /** A request with nothing interleaved. */
  function OneRequest(row: Option<Row>, token: Token, readAt: real, writtenAt: real): State {
    var only := (id: nat) => token;
    Perform(Perform(State(row, map[]), Read(0, readAt), only), Write(0, writtenAt), only)
  }

  // ---- The one atomic rule ---------------------------------------------------------------

  /** Admit if and only if there is no row, the row is this session's, or the token is strictly newer. */
  predicate Admits(row: Option<Row>, token: Token) {
    row.Some? && row.value.session != token.session ==> row.value.issuedAt < token.issuedAt
  }

  /** What one indivisible request may do: decide by Admits; refused, leave the row; admitted, claim
      it, or leave it when it is this session's already. */
  ghost predicate AtomicRule(row: Option<Row>, token: Token, admitted: bool, row': Option<Row>) {
    && admitted == Admits(row, token)
    && (!admitted ==> row' == row)
    && (admitted ==>
          || (row.Some? && row.value.session == token.session && row' == row)
          || (row'.Some? && row'.value.session == token.session && row'.value.issuedAt == token.issuedAt))
  }

  datatype Ended = Ended(id: nat, admitted: bool)

  /** The requests in the order in which they ended, each with its answer. */
  function Ends(steps: seq<Step>, token: nat -> Token): seq<Ended> {
    if steps == [] then []
    else
      var front := steps[..|steps| - 1];
      var id, before, after := steps[|steps| - 1].id, Run(front, token), Run(steps, token);
      Ends(front, token)
      + if before != after && after.phases[id].Done? then [Ended(id, after.phases[id].admitted)] else []
  }

  /** The requests, run one after the other by the atomic rule, lead from one row to the other. */
  ghost predicate Serial(row: Option<Row>, ends: seq<Ended>, token: nat -> Token, row': Option<Row>) {
    if ends == [] then row' == row
    else
      var last := ends[|ends| - 1];
      exists mid :: Serial(row, ends[..|ends| - 1], token, mid) && AtomicRule(mid, token(last.id), last.admitted, row')
  }

  lemma StepIsAtomic(s: State, step: Step, token: nat -> Token)
    requires Enabled(s, step)
    ensures var s' := Perform(s, step, token);
            && s' != s && step.id in s'.phases
            && (s'.phases[step.id].Pending? ==> s'.row == s.row)
            && (s'.phases[step.id].Done? ==> AtomicRule(s.row, token(step.id), s'.phases[step.id].admitted, s'.row))
  {
  }

  lemma SerialSnoc(row: Option<Row>, ends: seq<Ended>, last: Ended, token: nat -> Token, mid: Option<Row>,
                   row': Option<Row>)
    requires Serial(row, ends, token, mid) && AtomicRule(mid, token(last.id), last.admitted, row')
    ensures Serial(row, ends + [last], token, row')
  {
    var all := ends + [last];
    assert all[..|all| - 1] == ends && all[|all| - 1] == last;
    assert Serial(row, all[..|all| - 1], token, mid);
  }

  lemma EndsStep(steps: seq<Step>, token: nat -> Token)
    requires steps != []
    ensures var front, step := steps[..|steps| - 1], steps[|steps| - 1];
            var s, s' := Run(front, token), Run(steps, token);
            if Enabled(s, step) && s'.phases[step.id].Done?
            then Ends(steps, token) == Ends(front, token) + [Ended(step.id, s'.phases[step.id].admitted)]
            else Ends(steps, token) == Ends(front, token) && s'.row == s.row
  {
    var s, step := Run(steps[..|steps| - 1], token), steps[|steps| - 1];
    if Enabled(s, step) {
      StepIsAtomic(s, step, token);
    }
  }

  /** Enforcing the single device is linearizable: in every interleaving, running the requests one at
      a time by the atomic rule, in the order in which they end, gives the same answers and the same
      row. A request ends at one of its own steps, so that order respects real time. */
  lemma {:induction false} Linearizable(steps: seq<Step>, token: nat -> Token)
    ensures Serial(None, Ends(steps, token), token, Run(steps, token).row)
  {
    if steps != [] {
      var front, step := steps[..|steps| - 1], steps[|steps| - 1];
      var s, s' := Run(front, token), Run(steps, token);
      Linearizable(front, token);
      EndsStep(steps, token);
      if Enabled(s, step) && s'.phases[step.id].Done? {
        StepIsAtomic(s, step, token);
        SerialSnoc(None, Ends(front, token), Ended(step.id, s'.phases[step.id].admitted), token, s.row, s'.row);
      }
    }
  }

  /** Every request ends at most once, with the answer it was given. */
  lemma {:induction false} EndsOnce(steps: seq<Step>, token: nat -> Token)
    ensures forall id, b :: Ended(id, b) in Ends(steps, token)
                        <==> id in Run(steps, token).phases && Run(steps, token).phases[id] == Done(b)
    ensures forall i, j :: 0 <= i < j < |Ends(steps, token)| ==> Ends(steps, token)[i].id != Ends(steps, token)[j].id
  {
    if steps != [] {
      var front := steps[..|steps| - 1];
      EndsOnce(front, token);
      EndsStep(steps, token);
      forall i | 0 <= i < |Ends(front, token)|
        ensures Ends(front, token)[i].id in Run(front, token).phases
             && Run(front, token).phases[Ends(front, token)[i].id].Done?
      {
        var e := Ends(front, token)[i];
        assert Ended(e.id, e.admitted) in Ends(front, token);
      }
    }
  }

  // ---- Changes of session over a run -----------------------------------------------------

  lemma {:induction false} RunPrefix(steps: seq<Step>, n: nat, token: nat -> Token)
    requires n < |steps|
    ensures Run(steps[..n + 1], token) == Perform(Run(steps[..n], token), steps[n], token)
  {
    assert steps[..n + 1][..n] == steps[..n];
  }

  /** A step that changes the session strictly raises the stored issue time. The stored time falls
      exactly when the same session is stamped again by an older token. */
  lemma IssueTimeStep(s: State, step: Step, token: nat -> Token)
    requires s.row.Some?
    ensures var row, row' := s.row.value, Perform(s, step, token).row;
            && row'.Some?
            && (row'.value.session != row.session ==> row'.value.issuedAt > row.issuedAt)
            && (row'.value.issuedAt < row.issuedAt
                <==> Enabled(s, step) && step.Write? && token(step.id).session == row.session
                     && token(step.id).issuedAt < row.issuedAt)
  {
  }

  /** All tokens of a session carry one issue time. */
  ghost predicate OneIssueTime(token: nat -> Token, issued: string -> real) {
    forall id :: token(id).issuedAt == issued(token(id).session)
  }

  lemma {:induction false} StoredIssueTime(steps: seq<Step>, token: nat -> Token, issued: string -> real)
    requires OneIssueTime(token, issued)
    ensures var row := Run(steps, token).row; row.Some? ==> row.value.issuedAt == issued(row.value.session)
  {
    if steps != [] {
      StoredIssueTime(steps[..|steps| - 1], token, issued);
    }
  }

  /** From any moment on, the row keeps its session or passes to sessions issued later and later. */
  lemma {:induction false} IssueTimeRises(steps: seq<Step>, i: nat, token: nat -> Token, issued: string -> real)
    requires OneIssueTime(token, issued) && i <= |steps| && Run(steps[..i], token).row.Some?
    ensures var row, row' := Run(steps[..i], token).row.value, Run(steps, token).row;
            row'.Some? && (row'.value.session == row.session || issued(row'.value.session) > issued(row.session))
    decreases |steps|
  {
    if i == |steps| {
      assert steps[..i] == steps;
    } else {
      var front := steps[..|steps| - 1];
      assert front[..i] == steps[..i];
      IssueTimeRises(front, i, token, issued);
      StoredIssueTime(front, token, issued);
      StoredIssueTime(steps, token, issued);
      IssueTimeStep(Run(front, token), steps[|steps| - 1], token);
    }
  }

  // ---- When a deposed session can come back ------------------------------------------------

  /** Two sessions each have a token newer than one of the other's. */
  predicate Overlap(token: nat -> Token, a: nat, b: nat, c: nat, d: nat) {
    && token(a).session == token(c).session && token(b).session == token(d).session
    && token(a).session != token(b).session
    && token(b).issuedAt > token(a).issuedAt && token(c).issuedAt > token(d).issuedAt
  }

  ghost predicate NoOverlap(token: nat -> Token) { forall a, b, c, d :: !Overlap(token, a, b, c, d) }

  /** A session holds the row, then another does, then the first again. */
  ghost predicate Returns(steps: seq<Step>, i: nat, j: nat, n: nat, token: nat -> Token) {
    && i <= j <= n <= |steps|
    && var x, y, z := Run(steps[..i], token).row, Run(steps[..j], token).row, Run(steps[..n], token).row;
       && x.Some? && y.Some? && z.Some?
       && x.value.session == z.value.session && x.value.session != y.value.session
  }

  /** No token of one session is newer than any token of the other. */
  ghost predicate NoneNewer(token: nat -> Token, gone: string, holder: string) {
    forall p, q :: token(p).session == gone && token(q).session == holder ==> token(p).issuedAt <= token(q).issuedAt
  }

  /** The row carries the session and the issue time of some request's token. */
  lemma {:induction false} StoredToken(steps: seq<Step>, token: nat -> Token) returns (id: nat)
    requires Run(steps, token).row.Some?
    ensures var row := Run(steps, token).row.value;
            token(id).session == row.session && token(id).issuedAt == row.issuedAt
  {
    var front, step := steps[..|steps| - 1], steps[|steps| - 1];
    if Run(front, token).row == Run(steps, token).row {
      id := StoredToken(front, token);
    } else {
      id := step.id;
    }
  }

  /** Without overlap, a newer token of one session puts all its tokens after all the other's. */
  lemma NewerIsAfter(token: nat -> Token, a: nat, b: nat)
    requires NoOverlap(token) && token(a).session != token(b).session && token(b).issuedAt > token(a).issuedAt
    ensures NoneNewer(token, token(a).session, token(b).session)
  {
    forall p, q | token(p).session == token(a).session && token(q).session == token(b).session
      ensures token(p).issuedAt <= token(q).issuedAt
    {
      assert !Overlap(token, a, b, p, q);
    }
  }

  /** One step from a row held by gone, or by a session after it, does not lead back before it. */
  lemma StepStaysAfter(s: State, step: Step, token: nat -> Token, gone: string, holder: nat)
    requires NoOverlap(token) && s.row.Some?
    requires token(holder).session == s.row.value.session && token(holder).issuedAt == s.row.value.issuedAt
    requires s.row.value.session != gone ==> NoneNewer(token, gone, s.row.value.session)
    ensures var row, row' := s.row.value, Perform(s, step, token).row;
            && row'.Some?
            && (row'.value.session != gone ==> NoneNewer(token, gone, row'.value.session))
            && (row.session != gone ==> row'.value.session != gone)
  {
    IssueTimeStep(s, step, token);
    var row, row' := s.row.value, Perform(s, step, token).row.value;
    if row'.session != row.session {
      assert token(step.id).session == row'.session && token(step.id).issuedAt > token(holder).issuedAt;
      NewerIsAfter(token, holder, step.id);
    }
  }

  /** From the moment a session holds the row, whoever else holds it is after it, and once lost it
      stays lost. */
  lemma {:induction false} StaysAfter(steps: seq<Step>, i: nat, n: nat, token: nat -> Token, gone: string)
    requires NoOverlap(token) && i <= n <= |steps| && Run(steps[..i], token).row.Some?
    requires var holder := Run(steps[..i], token).row.value.session; holder != gone ==> NoneNewer(token, gone, holder)
    ensures Run(steps[..n], token).row.Some?
    ensures var holder, holder' := Run(steps[..i], token).row.value.session, Run(steps[..n], token).row.value.session;
            && (holder' != gone ==> NoneNewer(token, gone, holder'))
            && (holder != gone ==> holder' != gone)
  {
    if i < n {
      StaysAfter(steps, i, n - 1, token, gone);
      RunPrefix(steps, n - 1, token);
      var holder := StoredToken(steps[..n - 1], token);
      StepStaysAfter(Run(steps[..n - 1], token), steps[n - 1], token, gone, holder);
    }
  }

  /** Without overlapping issue times a session that lost the row never holds it again. */
  lemma NeverReturns(steps: seq<Step>, i: nat, j: nat, n: nat, token: nat -> Token)
    requires NoOverlap(token)
    ensures !Returns(steps, i, j, n, token)
  {
    if Returns(steps, i, j, n, token) {
      var gone := Run(steps[..i], token).row.value.session;
      StaysAfter(steps, i, j, token, gone);
      StaysAfter(steps, j, n, token, gone);
    }
  }

  /** A request served alone, at some time. */
  function Serve(id: nat, at: real): seq<Step> { [Read(id, at), Write(id, at)] }

  /** A request that has not begun and whose token matches claims the row, unless it was stamped
      moments ago. */
  lemma ServeClaims(steps: seq<Step>, id: nat, at: real, token: nat -> Token)
    requires var s := Run(steps, token);
             && id !in s.phases && UpsertMatches(s.row, token(id))
             && (s.row.Some? ==> s.row.value.lastSeenAt <= at - SESSION_ACTIVITY_WRITE_INTERVAL_SECONDS)
    ensures var s := Run(steps, token);
            Run(steps + Serve(id, at), token) == State(Some(Claim(token(id), at)), s.phases[id := Done(true)])
  {
    var all := steps + Serve(id, at);
    assert all[..|steps|] == steps && all[..|steps| + 2] == all;
    RunPrefix(all, |steps|, token);
    RunPrefix(all, |steps| + 1, token);
    var s := Run(steps, token);
    assert s.phases[id := Pending][id := Done(true)] == s.phases[id := Done(true)];
  }

  /** The clock does not go back, and no token is presented before it was issued. */
  predicate OnTime(steps: seq<Step>, token: nat -> Token) {
    && (forall k :: 0 <= k < |steps| ==> token(steps[k].id).issuedAt <= steps[k].now)
    && (forall k, m :: 0 <= k < m < |steps| ==> steps[k].now <= steps[m].now)
  }

  lemma ServeOnTime(steps: seq<Step>, id: nat, at: real, token: nat -> Token)
    requires OnTime(steps, token) && token(id).issuedAt <= at
    requires steps == [] || steps[|steps| - 1].now <= at
    ensures OnTime(steps + Serve(id, at), token)
  {
    var all := steps + Serve(id, at);
    forall k, m | 0 <= k < m < |all| ensures all[k].now <= all[m].now {
      assert k < |steps| - 1 ==> steps[k].now <= steps[|steps| - 1].now;
    }
  }

  /** A run on time whose last step made the row what it is, with requests of those ids so far. */
  ghost predicate Claims(steps: seq<Step>, token: nat -> Token, row: Row, ids: set<nat>) {
    && OnTime(steps, token) && steps != [] && steps[|steps| - 1].now == row.lastSeenAt
    && Run(steps, token).row == Some(row) && Run(steps, token).phases.Keys == ids
  }

  lemma FirstClaim(id: nat, at: real, token: nat -> Token)
    requires token(id).issuedAt <= at
    ensures Claims(Serve(id, at), token, Claim(token(id), at), {id})
  {
    ServeClaims([], id, at, token);
    ServeOnTime([], id, at, token);
    assert [] + Serve(id, at) == Serve(id, at);
  }

  lemma NextClaim(steps: seq<Step>, row: Row, ids: set<nat>, id: nat, at: real, token: nat -> Token)
    requires Claims(steps, token, row, ids) && id !in ids && UpsertMatches(Some(row), token(id))
    requires token(id).issuedAt <= at && row.lastSeenAt <= at - SESSION_ACTIVITY_WRITE_INTERVAL_SECONDS
    ensures Claims(steps + Serve(id, at), token, Claim(token(id), at), ids + {id})
  {
    ServeClaims(steps, id, at, token);
    ServeOnTime(steps, id, at, token);
  }

  /** Overlapping issue times, with two requests of the session that returns: it claims the row, is
      taken over, the holder is stamped again by its older token, and it takes the row back. */
  lemma OverlapReturns(token: nat -> Token, a: nat, b: nat, c: nat, d: nat, start: real) returns (steps: seq<Step>)
    requires Overlap(token, a, b, c, d) && a != c
    requires token(a).issuedAt <= start && token(b).issuedAt <= start
    requires token(c).issuedAt <= start && token(d).issuedAt <= start
    ensures OnTime(steps, token) && |steps| >= 4 && Returns(steps, 2, 4, |steps|, token)
  {
    var first, taken := Serve(a, start), Claim(token(b), start + 100.0);
    FirstClaim(a, start, token);
    NextClaim(first, Claim(token(a), start), {a}, b, start + 100.0, token);
    var second := first + Serve(b, start + 100.0);
    if b == d {
      NextClaim(second, taken, {a, b}, c, start + 300.0, token);
      steps := second + Serve(c, start + 300.0);
    } else {
      NextClaim(second, taken, {a, b}, d, start + 200.0, token);
      var third := second + Serve(d, start + 200.0);
      NextClaim(third, Claim(token(d), start + 200.0), {a, b, d}, c, start + 300.0, token);
      steps := third + Serve(c, start + 300.0);
    }
    assert steps[..2] == first && steps[..4] == second && steps[..|steps|] == steps;
  }

  lemma OverlapReturnsInTime(token: nat -> Token, a: nat, b: nat, c: nat, d: nat) returns (steps: seq<Step>)
    requires Overlap(token, a, b, c, d)
    ensures OnTime(steps, token) && |steps| >= 4 && Returns(steps, 2, 4, |steps|, token)
  {
    var start := Max(Max(token(a).issuedAt, token(b).issuedAt), Max(token(c).issuedAt, token(d).issuedAt));
    if a != c {
      steps := OverlapReturns(token, a, b, c, d, start);
    } else {
      steps := OverlapReturns(token, d, a, b, a, start);
    }
  }

  /** Some run that presents no token before its issue returns the row to a session that lost it
      exactly when two sessions have overlapping issue times. */
  lemma ReturnsIff(token: nat -> Token)
    ensures (exists steps, i, j, n :: OnTime(steps, token) && Returns(steps, i, j, n, token)) <==> !NoOverlap(token)
  {
    if NoOverlap(token) {
      forall steps, i, j, n ensures !Returns(steps, i, j, n, token) {
        NeverReturns(steps, i, j, n, token);
      }
    } else {
      var a, b, c, d :| Overlap(token, a, b, c, d);
      var steps := OverlapReturnsInTime(token, a, b, c, d);
    }
  }

  lemma OneIssueTimeNoOverlap(token: nat -> Token, issued: string -> real)
    requires OneIssueTime(token, issued)
    ensures NoOverlap(token)
  {
    forall a, b, c, d ensures !Overlap(token, a, b, c, d) {
      assert token(a).issuedAt == issued(token(a).session) && token(b).issuedAt == issued(token(b).session);
      assert token(c).issuedAt == issued(token(c).session) && token(d).issuedAt == issued(token(d).session);
    }
  }

  /** Without overlap, once another session has taken over, every step that the old one's requests
      take afterwards refuses them. */
  lemma NoRevival(steps: seq<Step>, i: nat, j: nat, n: nat, token: nat -> Token)
    requires NoOverlap(token) && i <= j <= n < |steps|
    requires Run(steps[..i], token).row.Some? && Run(steps[..j], token).row.Some?
    requires Run(steps[..i], token).row.value.session != Run(steps[..j], token).row.value.session
    ensures var gone, s, step := Run(steps[..i], token).row.value.session, Run(steps[..n], token), steps[n];
            && s.row.Some? && s.row.value.session != gone
            && (Enabled(s, step) && token(step.id).session == gone ==>
                  Run(steps[..n + 1], token) == s.(phases := s.phases[step.id := Done(false)]))
  {
    var gone := Run(steps[..i], token).row.value.session;
    StaysAfter(steps, i, j, token, gone);
    StaysAfter(steps, j, n, token, gone);
    var holder := StoredToken(steps[..n], token);
    RunPrefix(steps, n, token);
  }

  /** How often the row passed from one session to another. */
  function Takeovers(steps: seq<Step>, token: nat -> Token): nat {
    if steps == [] then 0
    else
      var before, after := Run(steps[..|steps| - 1], token).row, Run(steps, token).row;
      Takeovers(steps[..|steps| - 1], token)
      + if before.Some? && after.Some? && before.value.session != after.value.session then 1 else 0
  }

  /** The sessions whose requests took a step. */
  function SessionsOf(steps: seq<Step>, token: nat -> Token): set<string> {
    set i | 0 <= i < |steps| :: token(steps[i].id).session
  }

  lemma SessionsGrow(steps: seq<Step>, token: nat -> Token)
    requires steps != []
    ensures SessionsOf(steps[..|steps| - 1], token) <= SessionsOf(steps, token)
    ensures token(steps[|steps| - 1].id).session in SessionsOf(steps, token)
  {
    var front := steps[..|steps| - 1];
    forall a | a in SessionsOf(front, token) ensures a in SessionsOf(steps, token) {
      var i :| 0 <= i < |front| && token(front[i].id).session == a;
      assert steps[i] == front[i];
    }
  }

  /** The sessions have all lost the row to its holder, and none is newer. */
  ghost predicate AllBefore(gone: set<string>, row: Option<Row>, token: nat -> Token) {
    if row.None? then gone == {}
    else row.value.session !in gone && forall a :: a in gone ==> NoneNewer(token, a, row.value.session)
  }

  /** A step that changes the holder adds the old one to the deposed sessions. */
  lemma DeposedStep(s: State, step: Step, token: nat -> Token, gone: set<string>, holder: nat)
    requires NoOverlap(token) && s.row.Some? && AllBefore(gone, s.row, token)
    requires token(holder).session == s.row.value.session && token(holder).issuedAt == s.row.value.issuedAt
    ensures var row' := Perform(s, step, token).row;
            && row'.Some?
            && AllBefore(if row'.value.session == s.row.value.session
                         then gone else gone + {s.row.value.session}, row', token)
  {
    var row' := Perform(s, step, token).row;
    forall a | a in gone ensures row'.value.session != a && NoneNewer(token, a, row'.value.session) {
      StepStaysAfter(s, step, token, a, holder);
    }
    StepStaysAfter(s, step, token, s.row.value.session, holder);
  }

  lemma HolderTookStep(steps: seq<Step>, token: nat -> Token)
    requires Run(steps, token).row.Some? && steps != []
    ensures var front, step := steps[..|steps| - 1], steps[|steps| - 1];
            var session := Run(steps, token).row.value.session;
            session == token(step.id).session
                || (Run(front, token).row.Some? && session == Run(front, token).row.value.session)
  {
  }

  /** The sessions that lost the row, all of which took a step and come before the present holder. */
  lemma {:induction false} Deposed(steps: seq<Step>, token: nat -> Token) returns (gone: set<string>)
    requires NoOverlap(token)
    ensures |gone| == Takeovers(steps, token) && gone <= SessionsOf(steps, token)
    ensures AllBefore(gone, Run(steps, token).row, token)
    ensures Run(steps, token).row.Some? ==> Run(steps, token).row.value.session in SessionsOf(steps, token)
  {
    if steps == [] {
      gone := {};
    } else {
      var front := steps[..|steps| - 1];
      var before := Deposed(front, token);
      SessionsGrow(steps, token);
      if Run(steps, token).row.Some? {
        HolderTookStep(steps, token);
      }
      if Run(front, token).row.None? {
        gone := {};
      } else {
        gone := DeposedNext(steps, token, before, Run(front, token).row.value.session);
      }
    }
  }

  lemma DeposedNext(steps: seq<Step>, token: nat -> Token, before: set<string>, held: string)
    returns (gone: set<string>)
    requires NoOverlap(token) && steps != []
    requires var row := Run(steps[..|steps| - 1], token).row;
             row.Some? && row.value.session == held && AllBefore(before, row, token)
    requires |before| == Takeovers(steps[..|steps| - 1], token)
    ensures |gone| == Takeovers(steps, token) && gone <= before + {held}
    ensures AllBefore(gone, Run(steps, token).row, token)
  {
    var front, step := steps[..|steps| - 1], steps[|steps| - 1];
    var holder := StoredToken(front, token);
    DeposedStep(Run(front, token), step, token, before, holder);
    gone := if Run(steps, token).row.value.session == held then before else before + {held};
  }

  lemma {:induction false} SubsetSize<T>(a: set<T>, b: set<T>)
    requires a <= b
    ensures |a| <= |b|
  {
    if a != {} {
      var x :| x in a;
      SubsetSize(a - {x}, b - {x});
    }
  }

  /** Without overlapping issue times there is at most one takeover per further session. */
  lemma TakeoversBounded(steps: seq<Step>, token: nat -> Token)
    requires NoOverlap(token)
    ensures Run(steps, token).row.Some? ==> Takeovers(steps, token) + 1 <= |SessionsOf(steps, token)|
    ensures Takeovers(steps, token) <= |SessionsOf(steps, token)|
  {
    var gone := Deposed(steps, token);
    var row := Run(steps, token).row;
    if row.Some? {
      SubsetSize(gone + {row.value.session}, SessionsOf(steps, token));
    }
  }

  const PHONE := "phone"
  const TABLET := "tablet"

  function RevivingTokens(id: nat): Token {
    if id == 1 then Token(TABLET, 20.0)
    else if id == 2 then Token(TABLET, 5.0)
    else Token(PHONE, 10.0)
  }

  /** With overlap a deposed session can come back: an older token of the holder lowers the stored
      issue time, because the upsert overwrites it even on a plain restamp. */
  lemma RestampCanRevive()
    ensures var steps := Serve(0, 10.0) + Serve(1, 100.0) + Serve(2, 200.0) + Serve(3, 300.0);
            && OnTime(steps, RevivingTokens)
            && Run(steps[..2], RevivingTokens).row == Some(Row(PHONE, 10.0, 10.0))
            && Run(steps[..4], RevivingTokens).row == Some(Row(TABLET, 20.0, 100.0))
            && Run(steps, RevivingTokens).row == Some(Row(PHONE, 10.0, 300.0))
  {
    var first := Serve(0, 10.0);
    var second := first + Serve(1, 100.0);
    var third := second + Serve(2, 200.0);
    FirstClaim(0, 10.0, RevivingTokens);
    NextClaim(first, Row(PHONE, 10.0, 10.0), {0}, 1, 100.0, RevivingTokens);
    NextClaim(second, Row(TABLET, 20.0, 100.0), {0, 1}, 2, 200.0, RevivingTokens);
    NextClaim(third, Row(TABLET, 5.0, 200.0), {0, 1, 2}, 3, 300.0, RevivingTokens);
    var steps := third + Serve(3, 300.0);
    assert steps[..2] == first && steps[..4] == second;
  }

  function RefreshedTokens(id: nat): Token {
    if id == 1 then Token(TABLET, 20.0)
    else if id == 2 then Token(PHONE, 30.0)
    else Token(PHONE, 10.0)
  }

  /** Nor does it take an older token: a refreshed token of the deposed session is newer as well. */
  lemma RefreshedTokenReturns()
    ensures Overlap(RefreshedTokens, 0, 1, 2, 1)
    ensures var steps := Serve(0, 10.0) + Serve(1, 100.0) + Serve(2, 300.0);
            && OnTime(steps, RefreshedTokens)
            && Run(steps[..2], RefreshedTokens).row == Some(Row(PHONE, 10.0, 10.0))
            && Run(steps[..4], RefreshedTokens).row == Some(Row(TABLET, 20.0, 100.0))
            && Run(steps, RefreshedTokens).row == Some(Row(PHONE, 30.0, 300.0))
  {
    assert PHONE[0] != TABLET[0];
    var first := Serve(0, 10.0);
    var second := first + Serve(1, 100.0);
    FirstClaim(0, 10.0, RefreshedTokens);
    NextClaim(first, Row(PHONE, 10.0, 10.0), {0}, 1, 100.0, RefreshedTokens);
    NextClaim(second, Row(TABLET, 20.0, 100.0), {0, 1}, 2, 300.0, RefreshedTokens);
    var steps := second + Serve(2, 300.0);
    assert steps[..2] == first && steps[..4] == second;
  }
}
