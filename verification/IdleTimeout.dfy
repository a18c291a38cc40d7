/**
 The idle timeout of dispatchers, with its retention sweep, under interleaved requests. Times are
 seconds; the timeout is a setting.
 */
module IdleTimeout {
  import opened Wrappers
  import SingleDevice

  const SESSION_RECORD_RETENTION_DAYS := 7.0
  const RETENTION := SESSION_RECORD_RETENTION_DAYS * 86400.0

  /** What a dispatcher's token claims. */
  datatype Token = Token(user: nat, session: string, issuedAt: real)

  datatype UserRow = UserRow(user: nat, issuedAt: real, lastSeenAt: real)

  type Table = map<string, UserRow>

  datatype Phase = Pending(isNew: bool) | Done(admitted: bool)

  datatype State = State(rows: Table, phases: map<nat, Phase>)

  /** A request's read, with its readings of the clock for the idle and the recency check, or its
      later write. */
  datatype Step = Read(id: nat, checkedAt: real, recencyAt: real) | Write(id: nat, now: real)

  predicate IdleExpired(since: real, now: real, timeout: real) { since < now - timeout }

  function Decide(rows: Table, token: Token, checkedAt: real, recencyAt: real, timeout: real): Phase {
    if token.session !in rows then
      if IdleExpired(token.issuedAt, checkedAt, timeout) then Done(false) else Pending(true)
    else
      var seen := rows[token.session].lastSeenAt;
      if IdleExpired(seen, checkedAt, timeout) then Done(false)
      else if SingleDevice.RecentlyStamped(seen, recencyAt) then Done(true)
      else Pending(false)
  }

  /** Insert, or on conflict set the last-seen time only. */
  function Upsert(rows: Table, token: Token, now: real): Table {
    if token.session in rows then rows[token.session := rows[token.session].(lastSeenAt := now)]
    else rows[token.session := UserRow(token.user, token.issuedAt, now)]
  }

  /** Drops the user's other rows that were last seen before the retention period. */
  function Sweep(rows: Table, token: Token, now: real): Table {
    map s | s in rows && !(rows[s].user == token.user && s != token.session && rows[s].lastSeenAt < now - RETENTION)
      :: rows[s]
  }

  predicate Enabled(s: State, step: Step) {
    match step
    case Read(id, _, _) => id !in s.phases
    case Write(id, _) => id in s.phases && s.phases[id].Pending?
  }

  /** One step of the system, with or without the retention sweep. */
  function Perform(s: State, step: Step, token: nat -> Token, timeout: real, sweeping: bool): State {
    if !Enabled(s, step) then s
    else
      match step
      case Read(id, checkedAt, recencyAt) =>
        s.(phases := s.phases[id := Decide(s.rows, token(id), checkedAt, recencyAt, timeout)])
      case Write(id, now) =>
        var rows := Upsert(s.rows, token(id), now);
        State(if sweeping && s.phases[id].isNew then Sweep(rows, token(id), now) else rows, s.phases[id := Done(true)])
  }

  function Run(steps: seq<Step>, token: nat -> Token, timeout: real, sweeping: bool): State {
    if steps == [] then State(map[], map[])
    else Perform(Run(steps[..|steps| - 1], token, timeout, sweeping), steps[|steps| - 1], token, timeout, sweeping)
  }

  /** The table of dispatcher sessions. */
  class UserSessions {
    var rows: Table

    constructor ()
      ensures rows == map[]
    {
      rows := map[];
    }

    /** One request with nothing interleaved. A token without claims is let through unchecked. */
    method EnforceUserIdleTimeout(claimed: Option<Token>, checkedAt: real, recencyAt: real, now: real, timeout: real)
      returns (admitted: bool)
      modifies this
      ensures claimed.None? ==> admitted && rows == old(rows)
      ensures claimed.Some? ==>
                OneRequest(old(rows), claimed.value, checkedAt, recencyAt, now, timeout)
                == State(rows, map[0 := Done(admitted)])
    {
      if claimed.None? {
        return true;
      }
      var token := claimed.value;
      var isNew := token.session !in rows;
      if isNew {
        if token.issuedAt < checkedAt - timeout {
          return false;
        }
      } else if rows[token.session].lastSeenAt < checkedAt - timeout {
        return false;
      } else if SingleDevice.RecentlyStamped(rows[token.session].lastSeenAt, recencyAt) {
        return true;
      }
      rows := Upsert(rows, token, now);
      if isNew {
        rows := Sweep(rows, token, now);
      }
      return true;
    }
  }

  function OneRequest(rows: Table, token: Token, checkedAt: real, recencyAt: real, now: real, timeout: real): State {
    var only := (id: nat) => token;
    Perform(Perform(State(rows, map[]), Read(0, checkedAt, recencyAt), only, timeout, true), Write(0, now), only,
            timeout, true)
  }

  // ---- The sweep decides nothing ---------------------------------------------------------

  function StartOf(step: Step): real { if step.Read? then step.checkedAt else step.now }

  /** The clock does not run backwards from one step to the next. */
  ghost predicate Clocked(steps: seq<Step>) {
    forall i, j :: 0 <= i < j < |steps| ==> StartOf(steps[i]) <= StartOf(steps[j])
  }

  /** The swept table lacks only rows that have outlived the retention period. */
  ghost predicate Swept(swept: Table, kept: Table, now: real) {
    && swept.Keys <= kept.Keys
    && (forall s :: s in swept ==> swept[s].lastSeenAt == kept[s].lastSeenAt)
    && (forall s :: s in kept && s !in swept ==> kept[s].lastSeenAt < now - RETENTION)
  }

  /** The step reads a row that was swept away, with a token issued within the timeout. */
  predicate Exposes(swept: State, kept: State, step: Step, token: nat -> Token, timeout: real) {
    && step.Read? && Enabled(kept, step)
    && var t := token(step.id);
       && t.session in kept.rows && t.session !in swept.rows
       && !IdleExpired(t.issuedAt, step.checkedAt, timeout)
  }

  lemma SweptLater(swept: Table, kept: Table, now: real, later: real)
    requires Swept(swept, kept, now) && now <= later
    ensures Swept(swept, kept, later)
  {
  }

  lemma SweptUpsert(swept: Table, kept: Table, token: Token, now: real)
    requires Swept(swept, kept, now)
    ensures Swept(Upsert(swept, token, now), Upsert(kept, token, now), now)
    ensures Swept(Sweep(Upsert(swept, token, now), token, now), Upsert(kept, token, now), now)
  {
  }

  /** A step that exposes nothing is answered alike with and without the sweep; one that does is not. */
  lemma SweepStep(swept: State, kept: State, step: Step, token: nat -> Token, timeout: real)
    requires timeout <= RETENTION
    requires swept.phases == kept.phases && Swept(swept.rows, kept.rows, StartOf(step))
    ensures var swept', kept' := Perform(swept, step, token, timeout, true), Perform(kept, step, token, timeout, false);
            && (Exposes(swept, kept, step, token, timeout) <==> swept'.phases != kept'.phases)
            && (!Exposes(swept, kept, step, token, timeout) ==> Swept(swept'.rows, kept'.rows, StartOf(step)))
  {
    if Enabled(kept, step) {
      if step.Read? {
        var t := token(step.id);
        var a := Decide(swept.rows, t, step.checkedAt, step.recencyAt, timeout);
        var b := Decide(kept.rows, t, step.checkedAt, step.recencyAt, timeout);
        assert Exposes(swept, kept, step, token, timeout) <==> a != b;
        assert swept.phases[step.id := a][step.id] == a && kept.phases[step.id := b][step.id] == b;
      } else {
        SweptUpsert(swept.rows, kept.rows, token(step.id), step.now);
      }
    }
  }

  ghost predicate ExposedAt(steps: seq<Step>, n: nat, token: nat -> Token, timeout: real)
    requires n < |steps|
  {
    Exposes(Run(steps[..n], token, timeout, true), Run(steps[..n], token, timeout, false), steps[n], token, timeout)
  }

  lemma RunPrefix(steps: seq<Step>, n: nat, token: nat -> Token, timeout: real, sweeping: bool)
    requires n < |steps|
    ensures Run(steps[..n + 1], token, timeout, sweeping)
         == Perform(Run(steps[..n], token, timeout, sweeping), steps[n], token, timeout, sweeping)
  {
    assert steps[..n + 1][..n] == steps[..n];
  }

  /** As long as no step exposed a swept row, the two systems agree. */
  lemma {:induction false} AgreeUntil(steps: seq<Step>, n: nat, token: nat -> Token, timeout: real, now: real)
    requires timeout <= RETENTION && Clocked(steps) && n <= |steps|
    requires forall m :: 0 <= m < n ==> !ExposedAt(steps, m, token, timeout)
    requires forall m :: 0 <= m < n ==> StartOf(steps[m]) <= now
    ensures Run(steps[..n], token, timeout, true).phases == Run(steps[..n], token, timeout, false).phases
    ensures Swept(Run(steps[..n], token, timeout, true).rows, Run(steps[..n], token, timeout, false).rows, now)
  {
    if n > 0 {
      var step := steps[n - 1];
      AgreeUntil(steps, n - 1, token, timeout, StartOf(step));
      RunPrefix(steps, n - 1, token, timeout, true);
      RunPrefix(steps, n - 1, token, timeout, false);
      assert !ExposedAt(steps, n - 1, token, timeout);
      SweepStep(Run(steps[..n - 1], token, timeout, true), Run(steps[..n - 1], token, timeout, false), step, token,
                timeout);
      SweptLater(Run(steps[..n], token, timeout, true).rows, Run(steps[..n], token, timeout, false).rows,
                 StartOf(step), now);
    }
  }

  lemma AgreeIffNotExposed(steps: seq<Step>, token: nat -> Token, timeout: real)
    requires timeout <= RETENTION && Clocked(steps)
    ensures (forall n :: 0 <= n <= |steps| ==>
               Run(steps[..n], token, timeout, true).phases == Run(steps[..n], token, timeout, false).phases)
        <==> (forall n :: 0 <= n < |steps| ==> !ExposedAt(steps, n, token, timeout))
  {
    if forall n :: 0 <= n < |steps| ==> !ExposedAt(steps, n, token, timeout) {
      forall n | 0 <= n <= |steps|
        ensures Run(steps[..n], token, timeout, true).phases == Run(steps[..n], token, timeout, false).phases
      {
        if n > 0 {
          AgreeUntil(steps, n, token, timeout, StartOf(steps[n - 1]));
        }
      }
    } else {
      var n := FirstExposed(steps, token, timeout);
      AgreeUntil(steps, n, token, timeout, StartOf(steps[n]));
      RunPrefix(steps, n, token, timeout, true);
      RunPrefix(steps, n, token, timeout, false);
      SweepStep(Run(steps[..n], token, timeout, true), Run(steps[..n], token, timeout, false), steps[n], token,
                timeout);
      assert Run(steps[..n + 1], token, timeout, true).phases != Run(steps[..n + 1], token, timeout, false).phases;
    }
  }

  lemma FirstExposed(steps: seq<Step>, token: nat -> Token, timeout: real) returns (n: nat)
    requires exists m :: 0 <= m < |steps| && ExposedAt(steps, m, token, timeout)
    ensures n < |steps| && ExposedAt(steps, n, token, timeout)
    ensures forall m :: 0 <= m < n ==> !ExposedAt(steps, m, token, timeout)
  {
    n := 0;
    while !ExposedAt(steps, n, token, timeout)
      invariant n < |steps| && forall m :: 0 <= m < n ==> !ExposedAt(steps, m, token, timeout)
      decreases |steps| - n
    {
      n := n + 1;
    }
  }

  // ---- The exposing requests, seen from the running system ------------------------------------

  /** The step writes the sign-in of another session of the same user, later than the retention period
      after the session's last stamp. */
  predicate SignInSweeps(s: State, step: Step, token: nat -> Token, session: string) {
    && step.Write? && Enabled(s, step) && s.phases[step.id].isNew
    && session in s.rows && session != token(step.id).session
    && s.rows[session].user == token(step.id).user && s.rows[session].lastSeenAt < step.now - RETENTION
  }

  lemma SignInSweepsIff(s: State, step: Step, token: nat -> Token, timeout: real, session: string)
    ensures session in s.rows ==>
              (session !in Perform(s, step, token, timeout, true).rows <==> SignInSweeps(s, step, token, session))
  {
  }

  /** A sign-in among the first n steps swept the session. */
  ghost predicate SweptBefore(steps: seq<Step>, n: nat, token: nat -> Token, timeout: real, session: string)
    requires n <= |steps|
  {
    exists m: nat :: m < n && SignInSweeps(Run(steps[..m], token, timeout, true), steps[m], token, session)
  }

  /** Step n reads for a session that a sign-in swept and that has not come back, with a token issued
      within the timeout. */
  ghost predicate Forgets(steps: seq<Step>, n: nat, token: nat -> Token, timeout: real)
    requires n < |steps|
  {
    var s, step := Run(steps[..n], token, timeout, true), steps[n];
    && step.Read? && Enabled(s, step)
    && token(step.id).session !in s.rows && SweptBefore(steps, n, token, timeout, token(step.id).session)
    && !IdleExpired(token(step.id).issuedAt, step.checkedAt, timeout)
  }

  /** What one step does to the presence of a session with and without the sweep. */
  lemma PresenceStep(swept: State, kept: State, step: Step, token: nat -> Token, timeout: real, session: string)
    requires swept.phases == kept.phases && swept.rows.Keys <= kept.rows.Keys
    ensures var swept', kept' := Perform(swept, step, token, timeout, true), Perform(kept, step, token, timeout, false);
            && (session in kept'.rows <==> session in kept.rows || session in swept'.rows)
            && (session in swept.rows && session !in swept'.rows <==> SignInSweeps(swept, step, token, session))
  {
    SignInSweepsIff(swept, step, token, timeout, session);
  }

  /** As long as the systems agree, the one without the sweep has the rows of the other, and those that
      some sign-in swept. */
  lemma {:induction false} KeptIff(steps: seq<Step>, n: nat, token: nat -> Token, timeout: real, session: string)
    requires timeout <= RETENTION && Clocked(steps) && n <= |steps|
    requires forall m :: 0 <= m < n ==> !ExposedAt(steps, m, token, timeout)
    ensures session in Run(steps[..n], token, timeout, false).rows
       <==> session in Run(steps[..n], token, timeout, true).rows || SweptBefore(steps, n, token, timeout, session)
  {
    if n > 0 {
      var step := steps[n - 1];
      var swept, kept := Run(steps[..n - 1], token, timeout, true), Run(steps[..n - 1], token, timeout, false);
      KeptIff(steps, n - 1, token, timeout, session);
      AgreeUntil(steps, n - 1, token, timeout, StartOf(step));
      RunPrefix(steps, n - 1, token, timeout, true);
      RunPrefix(steps, n - 1, token, timeout, false);
      PresenceStep(swept, kept, step, token, timeout, session);
      SweptBeforeNext(steps, n - 1, token, timeout, session);
    }
  }

  lemma SweptBeforeNext(steps: seq<Step>, n: nat, token: nat -> Token, timeout: real, session: string)
    requires n < |steps|
    ensures SweptBefore(steps, n + 1, token, timeout, session)
       <==> || SweptBefore(steps, n, token, timeout, session)
            || SignInSweeps(Run(steps[..n], token, timeout, true), steps[n], token, session)
  {
    if SweptBefore(steps, n + 1, token, timeout, session) {
      var m: nat :| m < n + 1 && SignInSweeps(Run(steps[..m], token, timeout, true), steps[m], token, session);
      assert m < n || m == n;
    }
  }

  lemma ForgetsIsExposed(steps: seq<Step>, n: nat, token: nat -> Token, timeout: real)
    requires timeout <= RETENTION && Clocked(steps) && n < |steps|
    requires forall m :: 0 <= m < n ==> !ExposedAt(steps, m, token, timeout)
    ensures ExposedAt(steps, n, token, timeout) <==> Forgets(steps, n, token, timeout)
  {
    AgreeUntil(steps, n, token, timeout, StartOf(steps[n]));
    KeptIff(steps, n, token, timeout, token(steps[n].id).session);
  }

  /** The systems with and without the sweep give the same answers, throughout a run, exactly when no
      request presents, for a session that another sign-in of its user swept after the retention
      period, a token issued within the timeout. */
  lemma SweepInvisibleIff(steps: seq<Step>, token: nat -> Token, timeout: real)
    requires timeout <= RETENTION && Clocked(steps)
    ensures (forall n :: 0 <= n <= |steps| ==>
               Run(steps[..n], token, timeout, true).phases == Run(steps[..n], token, timeout, false).phases)
        <==> (forall n :: 0 <= n < |steps| ==> !Forgets(steps, n, token, timeout))
  {
    AgreeIffNotExposed(steps, token, timeout);
    if exists m :: 0 <= m < |steps| && ExposedAt(steps, m, token, timeout) {
      var n := FirstExposed(steps, token, timeout);
      ForgetsIsExposed(steps, n, token, timeout);
    } else {
      forall n | 0 <= n < |steps| ensures !Forgets(steps, n, token, timeout) {
        ForgetsIsExposed(steps, n, token, timeout);
      }
    }
  }

  /** Every request presents a token issued no later than the last stamp of its row, if it has one. */
  ghost predicate TokensPrecedeStamps(steps: seq<Step>, token: nat -> Token, timeout: real) {
    forall n :: 0 <= n < |steps| && steps[n].Read? ==>
      var rows, t := Run(steps[..n], token, timeout, false).rows, token(steps[n].id);
      t.session in rows ==> t.issuedAt <= rows[t.session].lastSeenAt
  }

  /** The retention sweep never changes a decision, if tokens precede the stamps of their rows and
      the timeout is no longer than the retention period. */
  lemma SweepChangesNoDecision(steps: seq<Step>, token: nat -> Token, timeout: real)
    requires timeout <= RETENTION && Clocked(steps) && TokensPrecedeStamps(steps, token, timeout)
    ensures Run(steps, token, timeout, true).phases == Run(steps, token, timeout, false).phases
  {
    if exists m :: 0 <= m < |steps| && ExposedAt(steps, m, token, timeout) {
      var n := FirstExposed(steps, token, timeout);
      AgreeUntil(steps, n, token, timeout, StartOf(steps[n]));
      assert false;
    }
    AgreeIffNotExposed(steps, token, timeout);
    assert steps[..|steps|] == steps;
  }

  const DESK := "desk"
  const LAPTOP := "laptop"

  function ForgettingTokens(id: nat): Token {
    if id == 0 then Token(0, DESK, 0.0) else if id == 1 then Token(0, LAPTOP, 700000.0) else Token(0, DESK, 700001.0)
  }

  const FORGETTING: seq<Step> := [
    Read(0, 0.0, 0.0), Write(0, 0.0), Read(1, 700000.0, 700000.0), Write(1, 700000.0), Read(2, 700002.0, 700002.0)]

  lemma ForgettingRun(sweeping: bool)
    ensures var s := Run(FORGETTING[..4], ForgettingTokens, 1800.0, sweeping);
            && s.phases == map[0 := Done(true), 1 := Done(true)]
            && DESK in Run(FORGETTING[..2], ForgettingTokens, 1800.0, sweeping).rows
            && (if sweeping then DESK !in s.rows else DESK in s.rows && s.rows[DESK].lastSeenAt == 0.0)
  {
    assert DESK[0] != LAPTOP[0] && FORGETTING[..0] == [];
    RunPrefix(FORGETTING, 0, ForgettingTokens, 1800.0, sweeping);
    RunPrefix(FORGETTING, 1, ForgettingTokens, 1800.0, sweeping);
    var first := Run(FORGETTING[..2], ForgettingTokens, 1800.0, sweeping);
    assert first == State(map[DESK := UserRow(0, 0.0, 0.0)], map[0 := Done(true)]);
    RunPrefix(FORGETTING, 2, ForgettingTokens, 1800.0, sweeping);
    RunPrefix(FORGETTING, 3, ForgettingTokens, 1800.0, sweeping);
  }

  /** The sweep can change a decision: a token newer than the row's last stamp, presented after another
      sign-in swept the row, is admitted with the sweep and refused without it. */
  lemma SweepCanAdmit()
    ensures Clocked(FORGETTING)
    ensures var with := Run(FORGETTING, ForgettingTokens, 1800.0, true);
            var without := Run(FORGETTING, ForgettingTokens, 1800.0, false);
            && 2 in with.phases && with.phases[2] == Pending(true)
            && 2 in without.phases && without.phases[2] == Done(false)
  {
    ForgettingRun(true);
    ForgettingRun(false);
    RunPrefix(FORGETTING, 4, ForgettingTokens, 1800.0, true);
    RunPrefix(FORGETTING, 4, ForgettingTokens, 1800.0, false);
    assert FORGETTING[..5] == FORGETTING;
  }
}
