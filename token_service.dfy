/** The session-token table: issuing, sliding-expiry verification, deletion by value,
    and one iteration of the hourly cleanup. */
module TokenService {
  import opened Common
  import opened Models

  const ONE_WEEK_IN_MILLIS: int := 7 * 24 * 60 * 60 * 1000

  /** The row filter of `verify`: same value, last used strictly after one week ago. */
  predicate IsLive(t: Token, value: string, now: int) {
    t.token == value && t.lastUseAt > now - ONE_WEEK_IN_MILLIS
  }

  /** The row filter of the cleanup: last used strictly before one week ago. */
  predicate IsExpired(t: Token, now: int) {
    t.lastUseAt < now - ONE_WEEK_IN_MILLIS
  }

  /** Some row would be found by `verify`. */
  predicate HasLive(rows: map<nat, Token>, value: string, now: int) {
    exists k :: k in rows && IsLive(rows[k], value, now)
  }

  /** The table after `Token.destroy({ where: { token: value } })`. */
  function WithoutValue(rows: map<nat, Token>, value: string): map<nat, Token> {
    map k | k in rows && rows[k].token != value :: rows[k]
  }

  /** The table after one cleanup iteration at time `now`. */
  function Swept(rows: map<nat, Token>, now: int): map<nat, Token> {
    map k | k in rows && !IsExpired(rows[k], now) :: rows[k]
  }

  /** The token table; `nextId` is the next autoincrement key. */
  class TokenStore {
    var rows: map<nat, Token>
    var nextId: nat

    ghost predicate Valid()
      reads this
    {
      1 <= nextId && forall k :: k in rows ==> 1 <= k < nextId
    }

    constructor ()
      ensures Valid() && rows == map[]
    {
      rows := map[];
      nextId := 1;
    }

    /** `createToken`: stores the generated value for the user with `lastUseAt = now`
        and returns that value. */
    method CreateToken(userId: nat, generated: string, now: int) returns (token: string)
      requires Valid()
      modifies this
      ensures Valid()
      ensures token == generated
      ensures old(nextId) !in old(rows)
      ensures rows == old(rows)[old(nextId) := Token(generated, userId, now)]
    {
      token := generated;
      rows := rows[nextId := Token(token, userId, now)];
      nextId := nextId + 1;
    }

    /** `verify`: finds a live row with this value, moves its `lastUseAt` to `now` and
        returns its owner. With no such row `findOne` yields `null` and reading its
        field throws, before anything is written. */
    method Verify(token: string, now: int) returns (r: Result<Identity, Exception>)
      requires Valid()
      modifies this
      ensures Valid() && nextId == old(nextId)
      ensures r.Success? <==> HasLive(old(rows), token, now)
      ensures r.Failure? ==> r.error == NullDereference && rows == old(rows)
      ensures r.Success? ==>
        exists k :: k in old(rows) && IsLive(old(rows)[k], token, now)
          && r.value == Identity(old(rows)[k].userId)
          && rows == old(rows)[k := old(rows)[k].(lastUseAt := now)]
    {
      if !HasLive(rows, token, now) {
        return Failure(NullDereference);
      }
      var k :| k in rows && IsLive(rows[k], token, now);
      rows := rows[k := rows[k].(lastUseAt := now)];
      r := Success(Identity(rows[k].userId));
    }

    /** `deleteToken`: removes every row carrying this value. */
    method DeleteToken(token: string)
      requires Valid()
      modifies this
      ensures Valid() && nextId == old(nextId)
      ensures rows == WithoutValue(old(rows), token)
    {
      rows := WithoutValue(rows, token);
    }

    /** One iteration of `scheduleCleanup`'s interval callback at time `now`. */
    method CleanupIteration(now: int)
      requires Valid()
      modifies this
      ensures Valid() && nextId == old(nextId)
      ensures rows == Swept(old(rows), now)
    {
      rows := Swept(rows, now);
    }
  }

  /** `verify` accepts exactly the rows used less than one week ago: a row used one week
      and one millisecond ago is rejected, one used four days ago is accepted. */
  lemma LiveMeansUsedWithinAWeek(t: Token, value: string, now: int)
    ensures IsLive(t, value, now) <==> t.token == value && now - t.lastUseAt < ONE_WEEK_IN_MILLIS
    ensures t.token == value && t.lastUseAt == now - ONE_WEEK_IN_MILLIS - 1 ==> !IsLive(t, value, now)
    ensures t.token == value && t.lastUseAt == now - 4 * 24 * 60 * 60 * 1000 - 1 ==> IsLive(t, value, now)
  {
  }

  /** The two bounds differ: a row used exactly one week ago is already rejected by
      `verify` but is not yet removed by the cleanup. */
  lemma ExactlyOneWeekRejectedButKept(rows: map<nat, Token>, k: nat, now: int)
    requires k in rows && rows[k].lastUseAt == now - ONE_WEEK_IN_MILLIS
    ensures !IsLive(rows[k], rows[k].token, now)
    ensures k in Swept(rows, now) && Swept(rows, now)[k] == rows[k]
  {
  }

  /** After a cleanup no expired row is left, and a later cleanup subsumes an earlier
      one: sweeping at `t1` and then at `t2 >= t1` is sweeping once at `t2`, and the rows
      kept at `t2` are among those kept at `t1`. */
  lemma LaterSweepSubsumesEarlier(rows: map<nat, Token>, t1: int, t2: int)
    requires t1 <= t2
    ensures forall k :: k in Swept(rows, t1) ==> !IsExpired(Swept(rows, t1)[k], t1)
    ensures Swept(Swept(rows, t1), t2) == Swept(rows, t2)
    ensures Swept(rows, t2).Keys <= Swept(rows, t1).Keys
  {
  }

  /** A second cleanup at the same time removes nothing. */
  lemma SweepIdempotent(rows: map<nat, Token>, now: int)
    ensures Swept(Swept(rows, now), now) == Swept(rows, now)
  {
  }

  /** A row last used eight days ago is rejected by `verify` before any cleanup and is
      gone after one cleanup iteration. */
  lemma EightDaysOldTokenDead(rows: map<nat, Token>, k: nat, now: int)
    requires k in rows && rows[k].lastUseAt == now - 8 * 24 * 60 * 60 * 1000
    ensures !IsLive(rows[k], rows[k].token, now)
    ensures k !in Swept(rows, now)
  {
  }

  /** Logical expiry does not depend on the cleanup: `verify` finds a live row for a value
      before a cleanup iff it finds one after it. */
  lemma SweepPreservesVerify(rows: map<nat, Token>, value: string, now: int)
    ensures HasLive(Swept(rows, now), value, now) <==> HasLive(rows, value, now)
  {
    if HasLive(rows, value, now) {
      var k :| k in rows && IsLive(rows[k], value, now);
      assert k in Swept(rows, now);
    }
  }

  /** Deleting one value leaves every other session as it was: `verify` accepts another
      value after the deletion iff it accepted it before. */
  lemma DeleteKeepsOtherSessions(rows: map<nat, Token>, value: string, other: string, now: int)
    requires other != value
    ensures HasLive(WithoutValue(rows, value), other, now) <==> HasLive(rows, other, now)
  {
    if HasLive(rows, other, now) {
      var k :| k in rows && IsLive(rows[k], other, now);
      assert k in WithoutValue(rows, value);
    }
  }

  /** Deleting a value twice is deleting it once; deleting an absent value changes nothing. */
  lemma DeleteTokenIdempotent(rows: map<nat, Token>, value: string)
    ensures WithoutValue(WithoutValue(rows, value), value) == WithoutValue(rows, value)
    ensures (forall k :: k in rows ==> rows[k].token != value) ==> WithoutValue(rows, value) == rows
  {
  }

  /** After `deleteToken`, `verify` rejects that value whatever the time. */
  lemma DeletedTokenNeverVerifies(rows: map<nat, Token>, value: string, now: int)
    ensures !HasLive(WithoutValue(rows, value), value, now)
  {
  }
}
