/** The idle window of dispatchers over serial requests of several sessions, with the sweep on. */
module DispatcherWindow {
  import opened Wrappers
  import opened IdleTimeout
  import opened Visits

  /** One request with nothing interleaved: its answer and the table after it. */
  function Serve(rows: Table, v: Visit<Token>, timeout: real): (bool, Table) {
    match Decide(rows, v.token, v.checkedAt, v.recencyAt, timeout)
    case Done(admitted) => (admitted, rows)
    case Pending(isNew) =>
      var stamped := Upsert(rows, v.token, v.stampedAt);
      (true, if isNew then Sweep(stamped, v.token, v.stampedAt) else stamped)
  }

  function TableAfter(visits: seq<Visit<Token>>, timeout: real): Table {
    if visits == [] then map[]
    else Serve(TableAfter(visits[..|visits| - 1], timeout), visits[|visits| - 1], timeout).1
  }

  predicate Admitted(visits: seq<Visit<Token>>, k: nat, timeout: real)
    requires k < |visits|
  {
    Serve(TableAfter(visits[..k], timeout), visits[k], timeout).0
  }

  // ---- Serial runs of the interleaved system -------------------------------------------------

  /** The steps of the visits, each request's write following its read at once. */
  function SerialSteps(visits: seq<Visit<Token>>): seq<Step> {
    if visits == [] then []
    else
      var n := |visits| - 1;
      SerialSteps(visits[..n])
      + [Read(n, visits[n].checkedAt, visits[n].recencyAt), Write(n, visits[n].stampedAt)]
  }

  predicate Presents(token: nat -> Token, visits: seq<Visit<Token>>) {
    forall i :: 0 <= i < |visits| ==> token(i) == visits[i].token
  }

  /** Every request has ended, with the answer it gets when served after those before it. */
  ghost predicate Answered(phases: map<nat, Phase>, visits: seq<Visit<Token>>, timeout: real) {
    && (forall k :: k in phases <==> 0 <= k < |visits|)
    && (forall k :: 0 <= k < |visits| ==> phases[k] == Done(Admitted(visits, k, timeout)))
  }

  lemma TwoSteps(steps: seq<Step>, x: Step, y: Step, token: nat -> Token, timeout: real)
    ensures Run(steps + [x, y], token, timeout, true)
         == Perform(Perform(Run(steps, token, timeout, true), x, token, timeout, true), y, token, timeout, true)
  {
    var all := steps + [x, y];
    assert all[..|steps|] == steps && all[..|steps| + 2] == all;
    RunPrefix(all, |steps|, token, timeout, true);
    RunPrefix(all, |steps| + 1, token, timeout, true);
  }

  /** A request served alone leaves the table and its answer as Serve says. */
  lemma ServeIsRequest(s: State, id: nat, v: Visit<Token>, token: nat -> Token, timeout: real)
    requires id !in s.phases && token(id) == v.token
    ensures var (admitted, rows) := Serve(s.rows, v, timeout);
            Perform(Perform(s, Read(id, v.checkedAt, v.recencyAt), token, timeout, true), Write(id, v.stampedAt),
                    token, timeout, true)
            == State(rows, s.phases[id := Done(admitted)])
  {
    var read := Perform(s, Read(id, v.checkedAt, v.recencyAt), token, timeout, true);
    assert s.phases[id := read.phases[id]][id := Done(true)] == s.phases[id := Done(true)];
  }

  lemma AnsweredNext(phases: map<nat, Phase>, visits: seq<Visit<Token>>, v: Visit<Token>, timeout: real)
    requires Answered(phases, visits, timeout)
    ensures Answered(phases[|visits| := Done(Serve(TableAfter(visits, timeout), v, timeout).0)], visits + [v], timeout)
  {
    var all := visits + [v];
    assert all[..|visits|] == visits;
    forall k | 0 <= k < |visits| ensures Admitted(all, k, timeout) == Admitted(visits, k, timeout) {
      assert all[..k] == visits[..k];
    }
  }

  /** A serial run of the interleaved system, with the sweep, goes through TableAfter. */
  lemma {:induction false} SerialRun(visits: seq<Visit<Token>>, token: nat -> Token, timeout: real)
    requires Presents(token, visits)
    ensures var s := Run(SerialSteps(visits), token, timeout, true);
            s.rows == TableAfter(visits, timeout) && Answered(s.phases, visits, timeout)
  {
    if visits != [] {
      var n := |visits| - 1;
      var front, v := visits[..n], visits[n];
      SerialRun(front, token, timeout);
      var s := Run(SerialSteps(front), token, timeout, true);
      TwoSteps(SerialSteps(front), Read(n, v.checkedAt, v.recencyAt), Write(n, v.stampedAt), token, timeout);
      ServeIsRequest(s, n, v, token, timeout);
      AnsweredNext(s.phases, front, v, timeout);
      assert visits == front + [v];
    }
  }

  // ---- The stored stamp ------------------------------------------------------------------------

  /** The last admitted visit of a session, which is its true last activity. */
  function LastOf(visits: seq<Visit<Token>>, session: string, timeout: real): Option<Visit<Token>> {
    if visits == [] then None
    else
      var front, v := visits[..|visits| - 1], visits[|visits| - 1];
      if v.token.session == session && Serve(TableAfter(front, timeout), v, timeout).0 then Some(v)
      else LastOf(front, session, timeout)
  }

  /** A session's row lags its last admitted visit by less than the interval; a session that was
      admitted and has no row was swept, by some time, after the retention period. */
  predicate Tracks(rows: Table, session: string, last: Option<Visit<Token>>, time: real) {
    && (session in rows ==> last.Some? && Lags(rows[session].lastSeenAt, last.value))
    && (session !in rows && last.Some? ==>
          last.value.recencyAt - 60.0 < time - RETENTION)
    && (last.Some? ==> last.value.stampedAt <= time)
  }

  /** One more visit, by this session or another one, keeps the lag. */
  lemma TracksStep(rows: Table, v: Visit<Token>, session: string, last: Option<Visit<Token>>, time: real, timeout: real)
    requires Tracks(rows, session, last, time)
    requires time <= v.checkedAt <= v.recencyAt <= v.stampedAt
    ensures var (admitted, rows') := Serve(rows, v, timeout);
            Tracks(rows', session, if v.token.session == session && admitted then Some(v) else last, v.stampedAt)
  {
  }

  /** The stored stamp of every session, after any visits of any sessions. */
  lemma {:induction false} UserStampLag(visits: seq<Visit<Token>>, session: string, timeout: real)
    requires Ordered(visits) && visits != []
    ensures Tracks(TableAfter(visits, timeout), session, LastOf(visits, session, timeout),
                   visits[|visits| - 1].stampedAt)
  {
    var front, v := visits[..|visits| - 1], visits[|visits| - 1];
    assert visits == front + [v];
    FrontInOrder(front, v);
    if front == [] {
      assert TableAfter(front, timeout) == map[] && LastOf(front, session, timeout) == None;
      TracksStep(TableAfter(front, timeout), v, session, None, v.checkedAt, timeout);
    } else {
      UserStampLag(front, session, timeout);
      TracksStep(TableAfter(front, timeout), v, session, LastOf(front, session, timeout),
                 front[|front| - 1].stampedAt, timeout);
    }
  }

  // ---- The idle window -------------------------------------------------------------------------

  /** For every session that was admitted before. Idle for longer than the timeout, it is refused
      exactly when its row is still there or its token was issued before the cutoff. Idle for at most
      the timeout less the write interval, it is admitted exactly when its row is still there or its
      token was issued since the cutoff; the row is there if the timeout is no longer than the
      retention period. */
  lemma UserIdleWindow(visits: seq<Visit<Token>>, v: Visit<Token>, timeout: real)
    requires Ordered(visits + [v]) && LastOf(visits, v.token.session, timeout).Some?
    ensures var last, rows := LastOf(visits, v.token.session, timeout).value, TableAfter(visits, timeout);
            var admitted, expired := Serve(rows, v, timeout).0, v.token.issuedAt < v.checkedAt - timeout;
            var present := v.token.session in rows;
            var recent := v.checkedAt - last.recencyAt <= timeout - 60.0;
            && (v.checkedAt - last.stampedAt > timeout ==> (!admitted <==> present || expired))
            && (recent ==> (admitted <==> present || !expired))
            && (recent && timeout <= 604800.0 ==> present)
  {
    FrontInOrder(visits, v);
    UserStampLag(visits, v.token.session, timeout);
  }

  // ---- Which sign-in swept a row ---------------------------------------------------------------

  /** Visit k signs a session in, and drops the row of another session of the same user that was last
      stamped before the retention period. */
  predicate SweptBy(visits: seq<Visit<Token>>, k: nat, session: string, timeout: real) {
    && k < |visits|
    && var rows, v := TableAfter(visits[..k], timeout), visits[k];
       && session in rows && v.token.session !in rows
       && Admitted(visits, k, timeout)
       && rows[session].user == v.token.user && rows[session].lastSeenAt < v.stampedAt - 604800.0
  }

  /** The session was admitted at no visit from k on. */
  predicate SilentFrom(visits: seq<Visit<Token>>, k: nat, session: string, timeout: real) {
    forall m :: k <= m < |visits| && visits[m].token.session == session ==> !Admitted(visits, m, timeout)
  }

  ghost predicate SweptSince(visits: seq<Visit<Token>>, session: string, timeout: real) {
    exists k: nat :: SweptBy(visits, k, session, timeout) && SilentFrom(visits, k, session, timeout)
  }

  lemma SameInFront(front: seq<Visit<Token>>, v: Visit<Token>, k: nat, session: string, timeout: real)
    requires k < |front|
    ensures Admitted(front + [v], k, timeout) == Admitted(front, k, timeout)
    ensures SweptBy(front + [v], k, session, timeout) == SweptBy(front, k, session, timeout)
  {
    assert (front + [v])[..k] == front[..k];
  }

  lemma SilentNext(front: seq<Visit<Token>>, v: Visit<Token>, k: nat, session: string, timeout: real)
    requires k <= |front|
    ensures SilentFrom(front + [v], k, session, timeout)
       <==> (SilentFrom(front, k, session, timeout)
             && !(v.token.session == session && Serve(TableAfter(front, timeout), v, timeout).0))
  {
    var visits := front + [v];
    assert visits[..|front|] == front;
    forall m | 0 <= m < |front| ensures Admitted(visits, m, timeout) == Admitted(front, m, timeout) {
      SameInFront(front, v, m, session, timeout);
    }
    assert Admitted(visits, |front|, timeout) == Serve(TableAfter(front, timeout), v, timeout).0;
  }

  lemma SweptSinceNext(front: seq<Visit<Token>>, v: Visit<Token>, session: string, timeout: real)
    ensures SweptSince(front + [v], session, timeout)
       <==> || SweptBy(front + [v], |front|, session, timeout)
            || (SweptSince(front, session, timeout)
                && !(v.token.session == session && Serve(TableAfter(front, timeout), v, timeout).0))
  {
    var visits := front + [v];
    assert visits[..|front|] == front;
    if SweptSince(visits, session, timeout) {
      var k: nat :| SweptBy(visits, k, session, timeout) && SilentFrom(visits, k, session, timeout);
      SilentNext(front, v, k, session, timeout);
      if k < |front| {
        SameInFront(front, v, k, session, timeout);
      }
    }
    if SweptSince(front, session, timeout) {
      var k: nat :| SweptBy(front, k, session, timeout) && SilentFrom(front, k, session, timeout);
      SilentNext(front, v, k, session, timeout);
      SameInFront(front, v, k, session, timeout);
    }
    if SweptBy(visits, |front|, session, timeout) {
      assert SilentFrom(front, |front|, session, timeout);
      SilentNext(front, v, |front|, session, timeout);
    }
  }

  /** One visit drops a session's row exactly by a sweep. */
  lemma RowStep(rows: Table, v: Visit<Token>, session: string, timeout: real)
    ensures var (admitted, rows') := Serve(rows, v, timeout);
            session in rows' <==>
              || (session == v.token.session && admitted)
              || (session in rows
                  && !(v.token.session !in rows && admitted && rows[session].user == v.token.user
                       && rows[session].lastSeenAt < v.stampedAt - RETENTION))
  {
  }

  /** A session that was admitted has no row exactly when another sign-in of its user swept it since. */
  lemma {:induction false} RowGoneIff(visits: seq<Visit<Token>>, session: string, timeout: real)
    ensures session in TableAfter(visits, timeout) ==> LastOf(visits, session, timeout).Some?
    ensures LastOf(visits, session, timeout).Some? ==>
              (session !in TableAfter(visits, timeout) <==> SweptSince(visits, session, timeout))
    ensures LastOf(visits, session, timeout).None? ==> !SweptSince(visits, session, timeout)
  {
    if visits != [] {
      var front, v := visits[..|visits| - 1], visits[|visits| - 1];
      assert visits == front + [v] && visits[..|front|] == front;
      RowGoneIff(front, session, timeout);
      SweptSinceNext(front, v, session, timeout);
      RowStep(TableAfter(front, timeout), v, session, timeout);
    }
  }

  // ---- Every answer, for every session ---------------------------------------------------------

  /** A session that was never admitted has no row, and is let in exactly when its token is no older than
      the timeout. */
  lemma NewSessionAdmitted(visits: seq<Visit<Token>>, v: Visit<Token>, timeout: real)
    requires LastOf(visits, v.token.session, timeout).None?
    ensures v.token.session !in TableAfter(visits, timeout)
    ensures Serve(TableAfter(visits, timeout), v, timeout).0 <==> v.checkedAt - v.token.issuedAt <= timeout
  {
    RowGoneIff(visits, v.token.session, timeout);
  }

  /** A session with a row is let in exactly when it was stamped no longer than the timeout ago, and is
      stamped again unless that was less than a minute ago. Only its stamp changes, and no other row. */
  lemma KnownSessionServed(rows: Table, v: Visit<Token>, timeout: real)
    requires v.token.session in rows
    ensures var own := rows[v.token.session];
            var (admitted, rows') := Serve(rows, v, timeout);
            && (admitted <==> v.checkedAt - own.lastSeenAt <= timeout)
            && rows' == if admitted && v.recencyAt - own.lastSeenAt >= 60.0
                        then rows[v.token.session := UserRow(own.user, own.issuedAt, v.stampedAt)] else rows
  {
  }

  /** A session without a row that is let in gets one for its user, with its token's issue time and its
      stamp; the user's other rows last stamped more than seven days before are dropped, and no other. */
  lemma SignInServed(rows: Table, v: Visit<Token>, timeout: real)
    requires v.token.session !in rows && Serve(rows, v, timeout).0
    ensures var rows' := Serve(rows, v, timeout).1;
            && v.token.session in rows'
            && rows'[v.token.session] == UserRow(v.token.user, v.token.issuedAt, v.stampedAt)
            && forall s :: s != v.token.session ==>
                 && (s in rows' <==>
                       s in rows && !(rows[s].user == v.token.user && v.stampedAt - rows[s].lastSeenAt > 604800.0))
                 && (s in rows' ==> rows'[s] == rows[s])
  {
  }

  /** Some visit of the session signed it in, and some later one stamped it last: the row says so. */
  ghost predicate Stamped(visits: seq<Visit<Token>>, session: string, row: UserRow) {
    exists i, j :: 0 <= i <= j < |visits| && visits[i].token.session == session == visits[j].token.session
      && row == UserRow(visits[i].token.user, visits[i].token.issuedAt, visits[j].stampedAt)
  }

  lemma StampedNext(front: seq<Visit<Token>>, v: Visit<Token>, session: string, row: UserRow)
    requires Stamped(front, session, row)
    ensures Stamped(front + [v], session, row)
    ensures v.token.session == session ==> Stamped(front + [v], session, row.(lastSeenAt := v.stampedAt))
  {
    var visits := front + [v];
    var i, j :| 0 <= i <= j < |front| && front[i].token.session == session == front[j].token.session
      && row == UserRow(front[i].token.user, front[i].token.issuedAt, front[j].stampedAt);
    assert visits[i] == front[i] && visits[j] == front[j] && visits[|front|] == v;
  }

  lemma SignInStamped(front: seq<Visit<Token>>, v: Visit<Token>)
    ensures Stamped(front + [v], v.token.session, UserRow(v.token.user, v.token.issuedAt, v.stampedAt))
  {
    assert (front + [v])[|front|] == v;
  }

  /** Every row is of visits of its session: the user and the issue time of a sign-in, a later stamp. */
  lemma {:induction false} RowsAreStamped(visits: seq<Visit<Token>>, session: string, timeout: real)
    ensures var rows := TableAfter(visits, timeout); session in rows ==> Stamped(visits, session, rows[session])
  {
    if visits != [] {
      var front, v := visits[..|visits| - 1], visits[|visits| - 1];
      var rows := TableAfter(front, timeout);
      assert visits == front + [v];
      RowsAreStamped(front, session, timeout);
      if session in rows {
        StampedNext(front, v, session, rows[session]);
      }
      if v.token.session in rows {
        KnownSessionServed(rows, v, timeout);
      } else if Serve(rows, v, timeout).0 {
        SignInServed(rows, v, timeout);
        SignInStamped(front, v);
      }
    }
  }

  // ---- A session forgotten ---------------------------------------------------------------------

  const DESK_FIRST := Visit(ForgettingTokens(0), 0.0, 0.0, 0.0)
  const LAPTOP_FIRST := Visit(ForgettingTokens(1), 700000.0, 700000.0, 700000.0)
  const DESK_AGAIN := Visit(ForgettingTokens(2), 700002.0, 700002.0, 700002.0)

  lemma TwoVisits()
    ensures TableAfter([DESK_FIRST], 1800.0) == map[DESK := UserRow(0, 0.0, 0.0)]
    ensures TableAfter([DESK_FIRST, LAPTOP_FIRST], 1800.0) == map[LAPTOP := UserRow(0, 700000.0, 700000.0)]
    ensures LastOf([DESK_FIRST, LAPTOP_FIRST], DESK, 1800.0) == Some(DESK_FIRST)
    ensures DESK != LAPTOP
  {
    assert DESK[0] != LAPTOP[0];
    assert [DESK_FIRST, LAPTOP_FIRST][..1] == [DESK_FIRST] && [DESK_FIRST][..0] == [];
    assert TableAfter([DESK_FIRST], 1800.0) == map[DESK := UserRow(0, 0.0, 0.0)];
  }

  /** A session idle for eight days, once swept by another sign-in of its user, is admitted again when
      it presents a fresh token. */
  lemma SweepForgetsIdle()
    ensures Ordered([DESK_FIRST, LAPTOP_FIRST] + [DESK_AGAIN])
            && LastOf([DESK_FIRST, LAPTOP_FIRST], DESK, 1800.0) == Some(DESK_FIRST)
    ensures DESK_AGAIN.checkedAt - DESK_FIRST.stampedAt > 1800.0
    ensures SweptSince([DESK_FIRST, LAPTOP_FIRST], DESK, 1800.0)
    ensures Serve(TableAfter([DESK_FIRST, LAPTOP_FIRST], 1800.0), DESK_AGAIN, 1800.0).0
    ensures var steps := SerialSteps([DESK_FIRST, LAPTOP_FIRST, DESK_AGAIN]);
            var phases := Run(steps, ForgettingTokens, 1800.0, true).phases;
            2 in phases && phases[2] == Done(true)
  {
    var two, three := [DESK_FIRST, LAPTOP_FIRST], [DESK_FIRST, LAPTOP_FIRST, DESK_AGAIN];
    TwoVisits();
    assert two[..1] == [DESK_FIRST] && three[..2] == two;
    assert SweptBy(two, 1, DESK, 1800.0) && SilentFrom(two, 1, DESK, 1800.0);
    SerialRun(three, ForgettingTokens, 1800.0);
    assert Admitted(three, 2, 1800.0);
  }
}
