/** The in-memory backend of the refresh-token service
    (src/auth/refresh-token.service.ts): a table from opaque token to the user
    it was issued for and its absolute expiry, in seconds. The clock and the
    random token generator are parameters of the operations. */
module RefreshTokens {
  import opened Wrappers
  import opened UserModel

  const SecondsPerDay: int := 24 * 3600
  /** Used when REFRESH_TTL_DAYS is unset or empty. */
  const DefaultTtlDays: int := 7

  /** What the table holds for one token. */
  datatype Stored = Stored(user: UserProfile, exp: int)

  /** What `issue` returns. */
  datatype Issued = Issued(token: string, exp: int)

  /** What a successful `rotate` returns. */
  datatype Rotated = Rotated(token: string, exp: int, user: UserProfile)

  /** Lifetime of a refresh token in seconds, from the configured number of days
      (`None` when the setting is unset or empty); the days are clamped to at least one. */
  function TtlSeconds(days: Option<int>): (s: int)
    ensures s >= SecondsPerDay && s % SecondsPerDay == 0
    ensures days.None? ==> s == 604800
    ensures days.Some? && days.value >= 1 ==> s == days.value * SecondsPerDay
    ensures days.Some? && days.value < 1 ==> s == SecondsPerDay
  {
    var d := days.GetOr(DefaultTtlDays);
    (if d < 1 then 1 else d) * SecondsPerDay
  }

  /** The entries that have not expired at `now`: an entry with `exp <= now` is expired. */
  function Live(m: map<string, Stored>, now: int): (r: map<string, Stored>)
    ensures forall t :: t in r <==> t in m && m[t].exp > now
    ensures forall t :: t in r ==> r[t] == m[t]
    ensures forall t :: t in r ==> r[t].exp > now
  {
    map t | t in m && m[t].exp > now :: m[t]
  }

  /** What a read of `token` at `now` reports: the record when present and not expired. */
  function Lookup(m: map<string, Stored>, token: string, now: int): (r: Option<Stored>)
    ensures r.Some? <==> token in m && now < m[token].exp
    ensures r.Some? ==> r.value == m[token]
  {
    if token in m && now < m[token].exp then Some(m[token]) else None
  }

  /** Sweeping twice changes nothing more than sweeping once, and a later sweep
      subsumes an earlier one. */
  lemma LiveIdempotent(m: map<string, Stored>, now: int, later: int)
    requires now <= later
    ensures Live(Live(m, now), later) == Live(m, later)
  {
    assert Live(Live(m, now), later).Keys == Live(m, later).Keys;
  }

  class RefreshTokenService {
    /** REFRESH_TTL_DAYS, `None` when unset or empty. */
    const ttlDays: Option<int>
    /** The `memory` map: token to stored record. */
    var memory: map<string, Stored>

    constructor (ttlDays: Option<int>)
      ensures this.ttlDays == ttlDays && memory == map[]
    {
      this.ttlDays := ttlDays;
      memory := map[];
    }

    /** Stores `user` under the caller-supplied `token` (overwriting any record
        already there), expiring `TtlSeconds` after `now`, then sweeps out every
        expired entry. */
    method Issue(user: UserProfile, token: string, now: int) returns (r: Issued)
      modifies this
      ensures r == Issued(token, now + TtlSeconds(ttlDays))
      ensures memory == Live(old(memory)[token := Stored(user, r.exp)], now)
      ensures token in memory && memory[token] == Stored(user, r.exp)
      ensures forall t :: t in memory ==> now < memory[t].exp
      ensures forall t :: t != token && t in old(memory) && now < old(memory)[t].exp ==>
                t in memory && memory[t] == old(memory)[t]
    {
      var exp := now + TtlSeconds(ttlDays);
      memory := memory[token := Stored(user, exp)];
      Cleanup(now);
      r := Issued(token, exp);
    }

    /** Reads `oldToken` and, when it is live, revokes it and issues `newToken` for the
        same user; `None` when `oldToken` is unknown, revoked, rotated or expired. */
    method Rotate(oldToken: string, newToken: string, now: int) returns (r: Option<Rotated>)
      modifies this
      ensures r.Some? <==> Lookup(old(memory), oldToken, now).Some?
      ensures r.None? ==> memory == old(memory) - {oldToken}
      ensures r.Some? ==>
                var user := old(memory)[oldToken].user;
                var exp := now + TtlSeconds(ttlDays);
                && r.value == Rotated(newToken, exp, user)
                && memory == Live((old(memory) - {oldToken})[newToken := Stored(user, exp)], now)
      ensures r.Some? ==> newToken in memory && memory[newToken].user == r.value.user
      ensures newToken != oldToken ==> oldToken !in memory
    {
      var stored := Get(oldToken, now);
      if stored.None? {
        return None;
      }
      Revoke(oldToken);
      var issued := Issue(stored.value.user, newToken, now);
      r := Some(Rotated(issued.token, issued.exp, stored.value.user));
    }

    /** Removes `token`; removing an absent token is a no-op. */
    method Revoke(token: string)
      modifies this
      ensures memory == old(memory) - {token}
    {
      memory := memory - {token};
    }

    /** Reads `token` at `now`, deleting the entry when it has expired. */
    method Get(token: string, now: int) returns (r: Option<Stored>)
      modifies this
      ensures r == Lookup(old(memory), token, now)
      ensures memory == if token in old(memory) && old(memory)[token].exp <= now
                        then old(memory) - {token} else old(memory)
    {
      if token !in memory {
        return None;
      }
      var val := memory[token];
      if val.exp <= now {
        memory := memory - {token};
        return None;
      }
      r := Some(val);
    }

    /** Deletes every entry expired at `now`, one at a time while walking the table. */
    method Cleanup(now: int)
      modifies this
      ensures memory == Live(old(memory), now)
    {
      ghost var start := memory;
      var pending := memory.Keys;
      while pending != {}
        invariant pending <= start.Keys
        invariant forall t :: t in memory <==> t in start && (t in pending || now < start[t].exp)
        invariant forall t :: t in memory ==> memory[t] == start[t]
        decreases pending
      {
        var t :| t in pending;
        if memory[t].exp <= now {
          memory := memory - {t};
        }
        pending := pending - {t};
      }
      assert memory.Keys == Live(start, now).Keys;
    }
  }

  /** The session lifecycle as a caller drives it: a token issued at `now` is
      rotated before it expires into `t2` for the same user; replaying `t1`
      fails, and after logging out with `t2` (twice, which is harmless) rotating it
      fails too. */
  method RotationLifecycle(user: UserProfile, t1: string, t2: string, t3: string, now: int, later: int)
    returns (first: Option<Rotated>, replay: Option<Rotated>, afterLogout: Option<Rotated>)
    requires t1 != t2
    requires now <= later < now + DefaultTtlDays * SecondsPerDay
    ensures first == Some(Rotated(t2, later + TtlSeconds(None), user))
    ensures replay.None? && afterLogout.None?
  {
    var store := new RefreshTokenService(None);
    var issued := store.Issue(user, t1, now);
    first := store.Rotate(t1, t2, later);
    replay := store.Rotate(t1, t3, later);
    store.Revoke(t2);
    store.Revoke(t2);
    afterLogout := store.Rotate(t2, t3, later);
  }

  /** Passive expiry: a token read at or after its expiry is reported absent,
      even though nothing revoked it, and the read removes it. */
  method PassiveExpiry(user: UserProfile, t1: string, t2: string, now: int, later: int)
    returns (rotated: Option<Rotated>, remaining: map<string, Stored>)
    requires now + DefaultTtlDays * SecondsPerDay <= later
    ensures rotated.None? && t1 !in remaining
  {
    var store := new RefreshTokenService(None);
    var issued := store.Issue(user, t1, now);
    rotated := store.Rotate(t1, t2, later);
    remaining := store.memory;
  }
}
