/**
 What skipping recent activity stamps costs, for requests served one after the other: the stored
 last-seen time lags the true one by less than the write interval.
 */
module ActivityStamps {
  import opened Wrappers
  import opened SingleDevice
  import opened Visits
  import IdleTimeout

  datatype Answer = Admitted | Idle | Superseded

  // ---- Drivers -------------------------------------------------------------------------

  /** The idle rule reads the row of this session, or else the token's own issue time. */
  predicate DriverExpired(row: Option<Row>, v: Visit<Token>, timeout: real) {
    var since := if row.Some? && row.value.session == v.token.session then row.value.lastSeenAt else v.token.issuedAt;
    IdleTimeout.IdleExpired(since, v.checkedAt, timeout)
  }

  /** The single-device rule, served alone. */
  function ClaimDevice(row: Option<Row>, v: Visit<Token>): (Answer, Option<Row>) {
    if RefusedOnRead(row, v.token) then (Superseded, row)
    else if SkipsWrite(row, v.token, v.recencyAt) then (Admitted, row)
    else (Admitted, Some(Claim(v.token, v.stampedAt)))
  }

  /** The idle check runs before the stamp. */
  function ServeDriver(row: Option<Row>, v: Visit<Token>, timeout: real): (Answer, Option<Row>) {
    if DriverExpired(row, v, timeout) then (Idle, row) else ClaimDevice(row, v)
  }

  /** The two dependencies of a driver's request, in the order in which they are called. */
  method CurrentDriver<Driver>(table: DriverSessions<Driver>, driver: Driver, v: Visit<Token>, timeout: real)
    returns (answer: Answer)
    modifies table
    ensures (answer, table.Current(driver)) == ServeDriver(old(table.Current(driver)), v, timeout)
  {
    var current := table.Current(driver);
    if current.None? || current.value.session != v.token.session {
      if v.token.issuedAt < v.checkedAt - timeout {
        return Idle;
      }
    } else if current.value.lastSeenAt < v.checkedAt - timeout {
      return Idle;
    }
    var admitted := table.EnforceSingleDevice(driver, Some(v.token), v.recencyAt, v.stampedAt);
    OneRequestIsClaim(current, v);
    answer := if admitted then Admitted else Superseded;
  }

  /** Served alone, the guarded upsert confirms what the advisory read decided. */
  lemma OneRequestIsClaim(row: Option<Row>, v: Visit<Token>)
    ensures var (answer, row') := ClaimDevice(row, v);
            OneRequest(row, v.token, v.recencyAt, v.stampedAt) == State(row', map[0 := Done(answer.Admitted?)])
  {
    var read := Perform(State(row, map[]), Read(0, v.recencyAt), (id: nat) => v.token);
    assert read.phases.Keys == {0};
  }

  function DriverRow(visits: seq<Visit<Token>>, timeout: real): Option<Row> {
    if visits == [] then None
    else ServeDriver(DriverRow(visits[..|visits| - 1], timeout), visits[|visits| - 1], timeout).1
  }

  /** The last visit that was admitted, which is the true last activity. */
  function LastAdmitted(visits: seq<Visit<Token>>, timeout: real): Option<Visit<Token>> {
    if visits == [] then None
    else
      var front, v := visits[..|visits| - 1], visits[|visits| - 1];
      if ServeDriver(DriverRow(front, timeout), v, timeout).0.Admitted? then Some(v) else LastAdmitted(front, timeout)
  }

  predicate DriverLags(row: Option<Row>, last: Option<Visit<Token>>) {
    && (row.None? <==> last.None?)
    && (row.Some? ==> row.value.session == last.value.token.session && Lags(row.value.lastSeenAt, last.value))
  }

  /** One more visit keeps the lag. */
  lemma DriverLagStep(row: Option<Row>, v: Visit<Token>, last: Option<Visit<Token>>, timeout: real)
    requires DriverLags(row, last)
    requires v.checkedAt <= v.recencyAt <= v.stampedAt && (last.Some? ==> last.value.stampedAt <= v.checkedAt)
    ensures var (answer, row') := ServeDriver(row, v, timeout);
            DriverLags(row', if answer.Admitted? then Some(v) else last)
  {
  }

  lemma {:induction false} LastIsVisit(visits: seq<Visit<Token>>, timeout: real)
    ensures LastAdmitted(visits, timeout).Some? ==> LastAdmitted(visits, timeout).value in visits
  {
    if visits != [] {
      LastIsVisit(visits[..|visits| - 1], timeout);
    }
  }

  /** The row belongs to the last admitted visit's session and lags it by less than the interval. */
  lemma {:induction false} DriverStampLag(visits: seq<Visit<Token>>, timeout: real)
    requires Ordered(visits)
    ensures DriverLags(DriverRow(visits, timeout), LastAdmitted(visits, timeout))
  {
    if visits != [] {
      var front, v := visits[..|visits| - 1], visits[|visits| - 1];
      assert visits == front + [v];
      FrontInOrder(front, v);
      DriverStampLag(front, timeout);
      LastIsVisit(front, timeout);
      var last := LastAdmitted(front, timeout);
      if last.Some? {
        InOrder(front, v, last.value);
      }
      DriverLagStep(DriverRow(front, timeout), v, last, timeout);
    }
  }

  /** The last visit of a session that was admitted. */
  function LastAdmittedOf(visits: seq<Visit<Token>>, session: string, timeout: real): Option<Visit<Token>> {
    if visits == [] then None
    else
      var front, v := visits[..|visits| - 1], visits[|visits| - 1];
      if v.token.session == session && ServeDriver(DriverRow(front, timeout), v, timeout).0.Admitted? then Some(v)
      else LastAdmittedOf(front, session, timeout)
  }

  lemma {:induction false} LastIsOwn(visits: seq<Visit<Token>>, session: string, timeout: real)
    ensures LastAdmittedOf(visits, session, timeout).Some? ==> LastAdmitted(visits, timeout).Some?
    ensures var last := LastAdmitted(visits, timeout);
            last.Some? && last.value.token.session == session ==> LastAdmittedOf(visits, session, timeout) == last
  {
    if visits != [] {
      LastIsOwn(visits[..|visits| - 1], session, timeout);
    }
  }

  /** For every session that was admitted before. If its last admitted visit is longer ago than the
      timeout, it is refused exactly when no other session was admitted since, or its token is older
      than the cutoff, or no newer than the stored issue time. If its last admitted visit is at most
      the timeout less the write interval ago, it is admitted exactly when no other session was
      admitted since, or its token is within the cutoff and newer than the stored issue time. */
  lemma DriverIdleWindow(visits: seq<Visit<Token>>, v: Visit<Token>, timeout: real)
    requires Ordered(visits + [v]) && LastAdmittedOf(visits, v.token.session, timeout).Some?
    ensures LastAdmitted(visits, timeout).Some? && DriverRow(visits, timeout).Some?
    ensures var own, row := LastAdmittedOf(visits, v.token.session, timeout).value, DriverRow(visits, timeout).value;
            var answer := ServeDriver(Some(row), v, timeout).0;
            var last := LastAdmitted(visits, timeout).value.token.session == v.token.session;
            var expired := v.token.issuedAt < v.checkedAt - timeout;
            && (v.checkedAt - own.stampedAt > timeout ==>
                  (answer != Admitted <==> last || expired || v.token.issuedAt <= row.issuedAt))
            && (v.checkedAt - own.recencyAt <= timeout - 60.0 ==>
                  (answer == Admitted <==> last || (!expired && v.token.issuedAt > row.issuedAt)))
  {
    FrontInOrder(visits, v);
    DriverStampLag(visits, timeout);
    LastIsOwn(visits, v.token.session, timeout);
  }

  // ---- Every answer, for every session ---------------------------------------------------------

  /** The last visit that was admitted and stamped: one that finds its session stamped less than a minute
      before it is admitted without a stamp. */
  function LastStamp(visits: seq<Visit<Token>>, timeout: real): Option<Visit<Token>> {
    if visits == [] then None
    else
      var front, v := visits[..|visits| - 1], visits[|visits| - 1];
      var before := LastStamp(front, timeout);
      var recent := before.Some? && before.value.token.session == v.token.session
        && v.recencyAt - before.value.stampedAt < 60.0;
      if ServeDriver(DriverRow(front, timeout), v, timeout).0.Admitted? && !recent then Some(v) else before
  }

  /** The row says which visit was stamped last: its session, its issue time and its stamp. */
  lemma {:induction false} RowIsLastStamp(visits: seq<Visit<Token>>, timeout: real)
    ensures var row, stamp := DriverRow(visits, timeout), LastStamp(visits, timeout);
            && (row.None? <==> stamp.None?)
            && (row.Some? ==>
                  row.value == Row(stamp.value.token.session, stamp.value.token.issuedAt, stamp.value.stampedAt))
  {
    if visits != [] {
      RowIsLastStamp(visits[..|visits| - 1], timeout);
    }
  }

  /** The answer to a visit of any session, admitted before or not. With the driver's last stamp its own,
      the session is idle exactly when that is longer ago than the timeout, and admitted otherwise. With
      no stamp or another session's, it is idle exactly when its token is older than the timeout, else
      superseded exactly when the token is no newer than that session's, and admitted otherwise. */
  lemma DriverAnswers(visits: seq<Visit<Token>>, v: Visit<Token>, timeout: real)
    ensures var answer, stamp := ServeDriver(DriverRow(visits, timeout), v, timeout).0, LastStamp(visits, timeout);
            if stamp.Some? && stamp.value.token.session == v.token.session then
              && (answer == Idle <==> v.checkedAt - stamp.value.stampedAt > timeout)
              && (answer == Admitted <==> v.checkedAt - stamp.value.stampedAt <= timeout)
            else
              && (answer == Idle <==> v.token.issuedAt < v.checkedAt - timeout)
              && (answer == Superseded <==>
                    answer != Idle && stamp.Some? && v.token.issuedAt <= stamp.value.token.issuedAt)
  {
    RowIsLastStamp(visits, timeout);
  }

  /** A session that no visit was admitted for is not the one stamped last. */
  lemma {:induction false} StampIsAdmitted(visits: seq<Visit<Token>>, session: string, timeout: real)
    ensures LastStamp(visits, timeout).Some? && LastStamp(visits, timeout).value.token.session == session ==>
              LastAdmittedOf(visits, session, timeout).Some?
  {
    if visits != [] {
      StampIsAdmitted(visits[..|visits| - 1], session, timeout);
    }
  }

  /** So a session that was never admitted is answered by the age of its token alone, whether the driver
      has no row or another session's. */
  lemma NewSessionIdle(visits: seq<Visit<Token>>, v: Visit<Token>, timeout: real)
    requires LastAdmittedOf(visits, v.token.session, timeout).None?
    ensures ServeDriver(DriverRow(visits, timeout), v, timeout).0 == Idle <==> v.token.issuedAt < v.checkedAt - timeout
  {
    StampIsAdmitted(visits, v.token.session, timeout);
    DriverAnswers(visits, v, timeout);
  }

  const FIRST_DEVICE := Visit(Token("a", 0.0), 0.0, 0.0, 0.0)
  const SECOND_DEVICE := Visit(Token("b", 50.0), 100.0, 100.0, 100.0)
  const FIRST_AGAIN := Visit(Token("a", 700000.0), 700001.0, 700001.0, 700001.0)

  /** After a takeover a session idle for days is admitted again, when it presents a fresh token. */
  lemma TakeoverForgetsIdle()
    ensures Ordered([FIRST_DEVICE, SECOND_DEVICE] + [FIRST_AGAIN])
    ensures LastAdmittedOf([FIRST_DEVICE, SECOND_DEVICE], "a", 1800.0) == Some(FIRST_DEVICE)
    ensures FIRST_AGAIN.checkedAt - FIRST_DEVICE.stampedAt > 1800.0
    ensures ServeDriver(DriverRow([FIRST_DEVICE, SECOND_DEVICE], 1800.0), FIRST_AGAIN, 1800.0).0 == Admitted
  {
    assert "a"[0] != "b"[0];
    var two := [FIRST_DEVICE, SECOND_DEVICE];
    assert two[..1] == [FIRST_DEVICE] && [FIRST_DEVICE][..0] == [];
    assert DriverRow([FIRST_DEVICE], 1800.0) == Some(Row("a", 0.0, 0.0));
    assert DriverRow(two, 1800.0) == Some(Row("b", 50.0, 100.0));
  }

  /** In the other order the timeout would never fire: the check would read the stamp just made. */
  lemma StampFirstNeverExpires(row: Option<Row>, v: Visit<Token>, checkedLater: real, timeout: real)
    requires ClaimDevice(row, v).0.Admitted?
    requires v.recencyAt <= v.stampedAt
             && checkedLater <= v.recencyAt + timeout - SESSION_ACTIVITY_WRITE_INTERVAL_SECONDS
    ensures !DriverExpired(ClaimDevice(row, v).1, v.(checkedAt := checkedLater), timeout)
  {
  }
}
