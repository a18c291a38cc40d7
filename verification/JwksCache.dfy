/** The cache of the provider's signing keys. Times are monotonic seconds. */
module JwksCache {
  // It is refreshed when it is older than its TTL, and once more for an unknown key id unless it was
  // fetched within the cooldown.

  import opened Wrappers

  const JWKS_TTL_SECONDS := 3600.0
  const JWKS_MIN_REFRESH_SECONDS := 60.0

  /** A key of the set; the kid may be missing from it. */
  datatype Jwk = Jwk(kid: Option<string>, material: string)

  /** A request to the provider: what it published when it answered, and when the answer was in; or
      nothing, when the request raised. */
  datatype Fetch = Answer(keys: seq<Jwk>, askedAt: real, doneAt: real) | Raised

  /** The two cache globals. The instant the provider answered is kept for the proofs alone. */
  datatype Cache = Cache(keys: Option<seq<Jwk>>, fetchedAt: real, askedAt: real)

  datatype Outcome = Found(key: Jwk) | InvalidToken | FetchFailed

  predicate Stale(c: Cache, now: real) { c.keys.None? || now - c.fetchedAt > JWKS_TTL_SECONDS }

  predicate CooledDown(c: Cache, now: real) { now - c.fetchedAt >= JWKS_MIN_REFRESH_SECONDS }

  function Store(f: Fetch): Cache
    requires f.Answer?
  {
    Cache(Some(f.keys), f.doneAt, f.askedAt)
  }

  function FirstWithKid(keys: seq<Jwk>, kid: string): Option<Jwk> {
    if keys == [] then None
    else if keys[0].kid == Some(kid) then Some(keys[0])
    else FirstWithKid(keys[1..], kid)
  }

  /** One lookup: when it starts, the fetch it makes if the cache is stale, when it finds the kid
      missing, and the fetch it makes then. */
  datatype Lookup = Lookup(kid: string, startedAt: real, staleFetch: Fetch, missedAt: real, missFetch: Fetch)

  /** The cache, the answer, and the fetches that succeeded, in order. */
  datatype Served = Served(cache: Cache, outcome: Outcome, fetches: seq<Fetch>)

  function Search(c: Cache, l: Lookup, fetches: seq<Fetch>): Served
    requires c.keys.Some?
  {
    var hit := FirstWithKid(c.keys.value, l.kid);
    if hit.Some? then Served(c, Found(hit.value), fetches)
    else if !CooledDown(c, l.missedAt) then Served(c, InvalidToken, fetches)
    else if l.missFetch.Raised? then Served(c, FetchFailed, fetches)
    else
      var again := FirstWithKid(l.missFetch.keys, l.kid);
      Served(Store(l.missFetch), if again.Some? then Found(again.value) else InvalidToken, fetches + [l.missFetch])
  }

  function Serve(c: Cache, l: Lookup): Served {
    if !Stale(c, l.startedAt) then Search(c, l, [])
    else if l.staleFetch.Raised? then Served(c, FetchFailed, [])
    else Search(Store(l.staleFetch), l, [l.staleFetch])
  }

  /** The module's globals and its two functions. */
  class KeyCache {
    var keys: Option<seq<Jwk>>
    var fetchedAt: real
    ghost var askedAt: real

    ghost function Contents(): Cache
      reads this
    {
      Cache(keys, fetchedAt, askedAt)
    }

    constructor ()
      ensures Contents() == Cache(None, 0.0, 0.0)
    {
      keys, fetchedAt, askedAt := None, 0.0, 0.0;
    }

    /** The keys, re-fetched if the cache is empty or past its TTL; nothing when the fetch raises. */
    method GetJwks(now: real, fetch: Fetch) returns (result: Option<seq<Jwk>>)
      modifies this
      ensures !Stale(old(Contents()), now) ==> Contents() == old(Contents()) && result == keys
      ensures Stale(old(Contents()), now) && fetch.Raised? ==> Contents() == old(Contents()) && result == None
      ensures Stale(old(Contents()), now) && fetch.Answer? ==> Contents() == Store(fetch) && result == Some(fetch.keys)
    {
      if keys.None? || now - fetchedAt > JWKS_TTL_SECONDS {
        if fetch.Raised? {
          return None;
        }
        keys, fetchedAt, askedAt := Some(fetch.keys), fetch.doneAt, fetch.askedAt;
      }
      return keys;
    }

    method GetSigningKey(l: Lookup) returns (outcome: Outcome)
      modifies this
      ensures Contents() == Serve(old(Contents()), l).cache && outcome == Serve(old(Contents()), l).outcome
    {
      var known := GetJwks(l.startedAt, l.staleFetch);
      if known.None? {
        return FetchFailed;
      }
      var hit := Find(known.value, l.kid);
      if hit.Some? {
        return Found(hit.value);
      }
      if l.missedAt - fetchedAt >= JWKS_MIN_REFRESH_SECONDS {
        if l.missFetch.Raised? {
          return FetchFailed;
        }
        keys, fetchedAt, askedAt := Some(l.missFetch.keys), l.missFetch.doneAt, l.missFetch.askedAt;
        hit := Find(keys.value, l.kid);
        if hit.Some? {
          return Found(hit.value);
        }
      }
      return InvalidToken;
    }
  }

  /** The first key of the set with the kid. */
  method Find(keys: seq<Jwk>, kid: string) returns (hit: Option<Jwk>)
    ensures hit == FirstWithKid(keys, kid)
  {
    for i := 0 to |keys|
      invariant FirstWithKid(keys, kid) == FirstWithKid(keys[i..], kid)
    {
      if keys[i].kid == Some(kid) {
        return Some(keys[i]);
      }
    }
    return None;
  }

  lemma {:induction false} FirstWithKidIs(keys: seq<Jwk>, kid: string)
    ensures var hit := FirstWithKid(keys, kid);
            if hit.None? then forall k :: k in keys ==> k.kid != Some(kid)
            else hit.value.kid == Some(kid) && ComesFirst(keys, hit.value, kid)
  {
    if keys != [] {
      FirstWithKidIs(keys[1..], kid);
      assert forall k :: k in keys ==> k == keys[0] || k in keys[1..];
      if keys[0].kid == Some(kid) {
        assert ComesFirst(keys, keys[0], kid);
      } else if FirstWithKid(keys, kid).Some? {
        var key := FirstWithKid(keys, kid).value;
        var i :| 0 <= i < |keys[1..]| && keys[1..][i] == key
                 && forall j :: 0 <= j < i ==> keys[1..][j].kid != Some(kid);
        assert keys[i + 1] == key && forall j :: 0 < j < i + 1 ==> keys[j] == keys[1..][j - 1];
      }
    }
  }

  /** The key is in the set, and none before it has the kid. */
  ghost predicate ComesFirst(keys: seq<Jwk>, key: Jwk, kid: string) {
    exists i :: 0 <= i < |keys| && keys[i] == key && forall j :: 0 <= j < i ==> keys[j].kid != Some(kid)
  }

  // ---- Runs --------------------------------------------------------------------------------

  function Run(lookups: seq<Lookup>): Cache {
    if lookups == [] then Cache(None, 0.0, 0.0) else Serve(Run(lookups[..|lookups| - 1]), lookups[|lookups| - 1]).cache
  }

  /** All successful fetches of a run, in order. */
  function Fetches(lookups: seq<Lookup>): seq<Fetch> {
    if lookups == [] then []
    else
      var front := lookups[..|lookups| - 1];
      Fetches(front) + Serve(Run(front), lookups[|lookups| - 1]).fetches
  }

  /** The provider published those keys at the instant it answered, which lies within the fetch. */
  ghost predicate Faithful(f: Fetch, from: real, until: real, provider: real -> seq<Jwk>) {
    f.Answer? ==> from <= f.askedAt <= f.doneAt <= until && f.keys == provider(f.askedAt)
  }

  ghost predicate Timely(l: Lookup, from: real, until: real, provider: real -> seq<Jwk>) {
    && from <= l.startedAt <= l.missedAt <= until
    && Faithful(l.staleFetch, l.startedAt, l.missedAt, provider)
    && Faithful(l.missFetch, l.missedAt, until, provider)
  }

  /** The lookups follow one another, each ending before the next starts. */
  ghost predicate Serial(lookups: seq<Lookup>, until: real, provider: real -> seq<Jwk>) {
    if lookups == [] then true
    else
      var front, last := lookups[..|lookups| - 1], lookups[|lookups| - 1];
      Serial(front, last.startedAt, provider) && Timely(last, last.startedAt, until, provider)
  }

  ghost predicate Spaced(fetches: seq<Fetch>) {
    && (forall i :: 0 <= i < |fetches| ==> fetches[i].Answer?)
    && (forall i, j :: 0 <= i < j < |fetches| ==>
          fetches[j].doneAt - fetches[i].doneAt >= JWKS_MIN_REFRESH_SECONDS)
  }

  /** The cache holds what the last successful fetch of the run brought. */
  ghost predicate HoldsLast(c: Cache, fetches: seq<Fetch>) {
    if fetches == [] then c.keys.None? else fetches[|fetches| - 1].Answer? && c == Store(fetches[|fetches| - 1])
  }

  lemma SpacedSnoc(fetches: seq<Fetch>, c: Cache, f: Fetch)
    requires Spaced(fetches) && HoldsLast(c, fetches) && f.Answer?
    requires c.keys.Some? ==> f.doneAt - c.fetchedAt >= JWKS_MIN_REFRESH_SECONDS
    ensures Spaced(fetches + [f]) && HoldsLast(Store(f), fetches + [f])
  {
    var n := |fetches|;
    forall i | 0 <= i < n ensures f.doneAt - fetches[i].doneAt >= JWKS_MIN_REFRESH_SECONDS {
      if i < n - 1 {
        assert fetches[n - 1].doneAt - fetches[i].doneAt >= JWKS_MIN_REFRESH_SECONDS;
      }
    }
  }

  /** The search keeps the spacing: made are the earlier fetches, then those of this lookup so far. */
  lemma SearchSpaced(c: Cache, l: Lookup, made: seq<Fetch>, fetches: seq<Fetch>)
    requires c.keys.Some? && Spaced(made + fetches) && HoldsLast(c, made + fetches)
    requires l.missFetch.Answer? ==> l.missedAt <= l.missFetch.doneAt
    ensures var served := Search(c, l, fetches);
            Spaced(made + served.fetches) && HoldsLast(served.cache, made + served.fetches)
  {
    if CooledDown(c, l.missedAt) && l.missFetch.Answer? {
      SpacedSnoc(made + fetches, c, l.missFetch);
      assert made + fetches + [l.missFetch] == made + (fetches + [l.missFetch]);
    }
  }

  lemma ServeSpaced(c: Cache, l: Lookup, made: seq<Fetch>)
    requires Spaced(made) && HoldsLast(c, made)
    requires l.staleFetch.Answer? ==> l.startedAt <= l.staleFetch.doneAt
    requires l.missFetch.Answer? ==> l.missedAt <= l.missFetch.doneAt
    ensures var served := Serve(c, l);
            Spaced(made + served.fetches) && HoldsLast(served.cache, made + served.fetches)
  {
    assert made + [] == made;
    if !Stale(c, l.startedAt) {
      SearchSpaced(c, l, made, []);
    } else if l.staleFetch.Answer? {
      SpacedSnoc(made, c, l.staleFetch);
      SearchSpaced(Store(l.staleFetch), l, made, [l.staleFetch]);
    }
  }

  /** In every run successful fetches are at least the cooldown apart. */
  lemma {:induction false} FetchesSpaced(lookups: seq<Lookup>, until: real, provider: real -> seq<Jwk>)
    requires Serial(lookups, until, provider)
    ensures Spaced(Fetches(lookups)) && HoldsLast(Run(lookups), Fetches(lookups))
  {
    if lookups != [] {
      var front, l := lookups[..|lookups| - 1], lookups[|lookups| - 1];
      FetchesSpaced(front, l.startedAt, provider);
      ServeSpaced(Run(front), l, Fetches(front));
    }
  }

  /** The cached set is what the provider published when it was asked. */
  lemma {:induction false} CacheIsPublished(lookups: seq<Lookup>, until: real, provider: real -> seq<Jwk>)
    requires Serial(lookups, until, provider)
    ensures var c := Run(lookups);
            c.keys.Some? ==> c.keys == Some(provider(c.askedAt)) && c.askedAt <= c.fetchedAt <= until
  {
    if lookups != [] {
      CacheIsPublished(lookups[..|lookups| - 1], lookups[|lookups| - 1].startedAt, provider);
    }
  }

  lemma ServeHolds(c: Cache, l: Lookup, made: seq<Fetch>)
    requires HoldsLast(c, made)
    ensures HoldsLast(Serve(c, l).cache, made + Serve(c, l).fetches)
  {
    assert made + [] == made;
  }

  lemma {:induction false} CacheHoldsLast(lookups: seq<Lookup>)
    ensures HoldsLast(Run(lookups), Fetches(lookups))
    ensures forall i :: 0 <= i < |Fetches(lookups)| ==> Fetches(lookups)[i].Answer?
  {
    if lookups != [] {
      var front := lookups[..|lookups| - 1];
      CacheHoldsLast(front);
      ServeHolds(Run(front), lookups[|lookups| - 1], Fetches(front));
    }
  }

  /** The answer from a set of keys received at some time, with the fetch made if the kid is not in it and
      the set is a minute old, and the fetches made in all. */
  ghost predicate AnsweredFrom(served: Served, l: Lookup, keys: seq<Jwk>, receivedAt: real, made: seq<Fetch>) {
    match FirstWithKid(keys, l.kid)
    case Some(key) => served.outcome == Found(key) && served.fetches == made
    case None =>
      if l.missedAt - receivedAt < 60.0 then served.outcome == InvalidToken && served.fetches == made
      else
        match l.missFetch
        case Raised => served.outcome == FetchFailed && served.fetches == made
        case Answer(fetched, _, _) =>
          && served.fetches == made + [l.missFetch]
          && served.outcome == match FirstWithKid(fetched, l.kid) case Some(key) => Found(key) case None => InvalidToken
  }

  ghost predicate AnsweredAfter(served: Served, l: Lookup, fetches: seq<Fetch>)
    requires forall i :: 0 <= i < |fetches| ==> fetches[i].Answer?
  {
    if fetches != [] && l.startedAt - fetches[|fetches| - 1].doneAt <= 3600.0 then
      AnsweredFrom(served, l, fetches[|fetches| - 1].keys, fetches[|fetches| - 1].doneAt, [])
    else if l.staleFetch.Raised? then served.outcome == FetchFailed && served.fetches == []
    else AnsweredFrom(served, l, l.staleFetch.keys, l.staleFetch.doneAt, [l.staleFetch])
  }

  /** After any lookups: when the last successful fetch is at most an hour old, the lookup is answered from
      what it brought; otherwise it fetches first, and is answered from that or fails with it. */
  lemma LookupFromLastFetch(lookups: seq<Lookup>, l: Lookup)
    ensures forall i :: 0 <= i < |Fetches(lookups)| ==> Fetches(lookups)[i].Answer?
    ensures AnsweredAfter(Serve(Run(lookups), l), l, Fetches(lookups))
  {
    CacheHoldsLast(lookups);
    ServedFrom(Run(lookups), l, Fetches(lookups));
  }

  lemma SearchedFrom(c: Cache, l: Lookup, made: seq<Fetch>)
    requires c.keys.Some?
    ensures AnsweredFrom(Search(c, l, made), l, c.keys.value, c.fetchedAt, made)
  {
  }

  lemma ServedFrom(c: Cache, l: Lookup, fetches: seq<Fetch>)
    requires HoldsLast(c, fetches) && forall i :: 0 <= i < |fetches| ==> fetches[i].Answer?
    ensures AnsweredAfter(Serve(c, l), l, fetches)
  {
    if c.keys.Some? && l.startedAt - c.fetchedAt <= 3600.0 {
      SearchedFrom(c, l, []);
    } else if l.staleFetch.Answer? {
      SearchedFrom(Store(l.staleFetch), l, [l.staleFetch]);
    }
  }

  /** A returned key has the requested kid and comes from a set that the provider published and that
      was fetched within the TTL before the lookup started, or during it. */
  lemma FoundKeyIsFresh(lookups: seq<Lookup>, l: Lookup, until: real, provider: real -> seq<Jwk>)
    requires Serial(lookups + [l], until, provider)
    ensures var c, served := Run(lookups + [l]), Serve(Run(lookups), l);
            && served.cache == c
            && (served.outcome.Found? ==>
                  && served.outcome.key.kid == Some(l.kid)
                  && served.outcome.key in provider(c.askedAt)
                  && c.askedAt <= c.fetchedAt <= until
                  && l.startedAt - c.fetchedAt <= JWKS_TTL_SECONDS)
  {
    assert (lookups + [l])[..|lookups|] == lookups;
    CacheIsPublished(lookups + [l], until, provider);
    CacheIsPublished(lookups, l.startedAt, provider);
    var c := Run(lookups + [l]);
    if c.keys.Some? {
      FirstWithKidIs(c.keys.value, l.kid);
    }
  }

  /** No answer took longer than the latency to arrive. */
  predicate AllWithin(fetches: seq<Fetch>, latency: real) {
    forall f :: f in fetches && f.Answer? ==> f.doneAt - f.askedAt <= latency
  }

  /** So the cached set is at most that much older than the cache takes it to be. */
  lemma CacheWithinLatency(c: Cache, fetches: seq<Fetch>, latency: real)
    requires HoldsLast(c, fetches) && AllWithin(fetches, latency)
    ensures c.keys.Some? ==> c.fetchedAt - c.askedAt <= latency
  {
    if fetches != [] {
      assert fetches[|fetches| - 1] in fetches;
    }
  }

  /** A key published before the lookup and kept since is found by it exactly when the cache is stale,
      or holds the key, or has cooled down, and the fetch made in the first and last case succeeds. It
      is called invalid only while a set that the provider gave before the key was published is within
      its cooldown. */
  lemma PublishedKeyFoundIff(lookups: seq<Lookup>, l: Lookup, until: real, provider: real -> seq<Jwk>,
                             publishedAt: real)
    requires Serial(lookups + [l], until, provider) && publishedAt <= l.startedAt
    requires forall t :: publishedAt <= t ==> FirstWithKid(provider(t), l.kid).Some?
    ensures var c, outcome := Run(lookups), Serve(Run(lookups), l).outcome;
            && (outcome.Found? <==>
                  if Stale(c, l.startedAt) then l.staleFetch.Answer?
                  else FirstWithKid(c.keys.value, l.kid).Some? || (CooledDown(c, l.missedAt) && l.missFetch.Answer?))
            && (outcome.InvalidToken? <==>
                  !Stale(c, l.startedAt) && FirstWithKid(c.keys.value, l.kid).None? && !CooledDown(c, l.missedAt))
            && (outcome.InvalidToken? ==>
                  c.askedAt < publishedAt && l.missedAt - c.fetchedAt < JWKS_MIN_REFRESH_SECONDS)
  {
    assert (lookups + [l])[..|lookups|] == lookups;
    CacheIsPublished(lookups, l.startedAt, provider);
    assert l.staleFetch.Answer? ==> FirstWithKid(provider(l.staleFetch.askedAt), l.kid).Some?;
    assert l.missFetch.Answer? ==> FirstWithKid(provider(l.missFetch.askedAt), l.kid).Some?;
  }

  /** If no answer before took longer than the latency to arrive, a key published at some instant and
      kept since is never called invalid by a lookup that starts a cooldown plus that latency later:
      it is found, unless a fetch that the lookup makes raises. */
  lemma PublishedKeyIsFound(lookups: seq<Lookup>, l: Lookup, until: real, provider: real -> seq<Jwk>,
                            publishedAt: real, latency: real)
    requires Serial(lookups + [l], until, provider) && 0.0 <= latency && AllWithin(Fetches(lookups), latency)
    requires forall t :: publishedAt <= t ==> FirstWithKid(provider(t), l.kid).Some?
    requires publishedAt + JWKS_MIN_REFRESH_SECONDS + latency <= l.startedAt
    ensures var c, outcome := Run(lookups), Serve(Run(lookups), l).outcome;
            && !outcome.InvalidToken?
            && (outcome.FetchFailed? <==> if Stale(c, l.startedAt) then l.staleFetch.Raised?
                                          else FirstWithKid(c.keys.value, l.kid).None? && l.missFetch.Raised?)
  {
    assert (lookups + [l])[..|lookups|] == lookups;
    CacheIsPublished(lookups, l.startedAt, provider);
    FetchesSpaced(lookups, l.startedAt, provider);
    CacheWithinLatency(Run(lookups), Fetches(lookups), latency);
    PublishedKeyFoundIff(lookups, l, until, provider, publishedAt);
  }

  function LateKeyProvider(t: real): seq<Jwk> {
    if t < 10.0 then [] else [Jwk(Some("new"), "")]
  }

  /** The latency counts: a fetch answered just before the key was published, and received after,
      can hide the key beyond the cooldown alone. */
  lemma LatencyDelaysPickup()
    ensures var slow := Answer(LateKeyProvider(9.0), 9.0, 15.0);
            var first := Lookup("old", 8.0, slow, 15.0, Raised);
            var later := Lookup("new", 70.0, Raised, 70.0, Raised);
            && Serial([first, later], 70.0, LateKeyProvider)
            && FirstWithKid(LateKeyProvider(10.0), "new").Some? && 10.0 + JWKS_MIN_REFRESH_SECONDS <= later.startedAt
            && Serve(Run([first]), later).outcome == InvalidToken
  {
    var slow := Answer(LateKeyProvider(9.0), 9.0, 15.0);
    var first := Lookup("old", 8.0, slow, 15.0, Raised);
    var later := Lookup("new", 70.0, Raised, 70.0, Raised);
    assert [first, later][..1] == [first] && [first][..0] == [];
    assert Serial([first], 70.0, LateKeyProvider);
    assert Run([first]) == Store(slow);
  }
}
