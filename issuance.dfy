/**
 * Issuing a credit (`issueCreditForUser`, and the `/api/bot/issue-credit` route,
 * which runs the same statements after validating its body): revoke the active
 * credit of the same (user, device), draw up to 15 candidate codes until one is
 * not held by an active credit, insert the new active credit.
 */
module Issuance {
  import opened Wrappers
  import opened Tables
  import opened CodeGenerator

  /** `for (let i = 0; i < 15; i++)`: the number of candidates tried. */
  const MaxAttempts: nat := 15

  /** One result of `Math.random()` per attempt. */
  predicate DrawsOk(draws: seq<real>) {
    |draws| >= MaxAttempts && forall k :: 0 <= k < |draws| ==> 0.0 <= draws[k] < 1.0
  }

  /**
   * The attempt, counting from `k`, at which the collision-retry loop stops: the
   * first whose candidate no active credit holds, or the last attempt.
   */
  function StopAttemptFrom(cs: seq<Credit>, draws: seq<real>, k: nat): (n: nat)
    requires DrawsOk(draws) && k < MaxAttempts
    ensures k <= n < MaxAttempts
    ensures forall j :: k <= j < n ==> HasActiveCode(cs, GenCode6(draws[j]))
    ensures n < MaxAttempts - 1 ==> !HasActiveCode(cs, GenCode6(draws[n]))
    decreases MaxAttempts - k
  {
    if !HasActiveCode(cs, GenCode6(draws[k])) || k == MaxAttempts - 1 then k
    else StopAttemptFrom(cs, draws, k + 1)
  }

  /** The attempt at which the loop exits, counting from the first. */
  function StopAttempt(cs: seq<Credit>, draws: seq<real>): (n: nat)
    requires DrawsOk(draws)
  {
    StopAttemptFrom(cs, draws, 0)
  }

  /** The value of `code` when the loop ends: the candidate of the stopping attempt. */
  function PickCode(cs: seq<Credit>, draws: seq<real>): (code: string)
    requires DrawsOk(draws)
    ensures IsCode6(code)
  {
    GenCode6(draws[StopAttempt(cs, draws)])
  }

  /** The picked code is a six-digit code; in particular it is never empty. */
  lemma PickCodeIsCode6(cs: seq<Credit>, draws: seq<real>)
    requires DrawsOk(draws)
    ensures IsCode6(PickCode(cs, draws)) && PickCode(cs, draws) != ""
  {
  }

  /** The loop stops at the first free candidate when one of the 15 is free. */
  lemma PickCodeFirstFree(cs: seq<Credit>, draws: seq<real>, j: nat)
    requires DrawsOk(draws) && j < MaxAttempts
    requires !HasActiveCode(cs, GenCode6(draws[j]))
    requires forall i :: 0 <= i < j ==> HasActiveCode(cs, GenCode6(draws[i]))
    ensures StopAttempt(cs, draws) == j
    ensures PickCode(cs, draws) == GenCode6(draws[j]) && !HasActiveCode(cs, PickCode(cs, draws))
  {
  }

  /**
   * When all 15 candidates collide, the loop ends holding the last one, which an
   * active credit holds: the loop itself never reports failure.
   */
  lemma PickCodeExhausted(cs: seq<Credit>, draws: seq<real>)
    requires DrawsOk(draws)
    requires forall i :: 0 <= i < MaxAttempts ==> HasActiveCode(cs, GenCode6(draws[i]))
    ensures PickCode(cs, draws) == GenCode6(draws[MaxAttempts - 1])
    ensures HasActiveCode(cs, PickCode(cs, draws))
  {
    var n := StopAttempt(cs, draws);
    assert HasActiveCode(cs, GenCode6(draws[n]));
  }

  /** Only the first 15 draws matter: the loop never asks for a sixteenth. */
  lemma {:induction false} StopAttemptUsesFifteenDraws(cs: seq<Credit>, draws: seq<real>, draws': seq<real>, k: nat)
    requires DrawsOk(draws) && DrawsOk(draws') && k < MaxAttempts
    requires draws[..MaxAttempts] == draws'[..MaxAttempts]
    ensures StopAttemptFrom(cs, draws, k) == StopAttemptFrom(cs, draws', k)
    decreases MaxAttempts - k
  {
    assert draws[k] == draws[..MaxAttempts][k] == draws'[k];
    if HasActiveCode(cs, GenCode6(draws[k])) && k < MaxAttempts - 1 {
      StopAttemptUsesFifteenDraws(cs, draws, draws', k + 1);
    }
  }

  /** What a successful issuance returns: the code and its expiry. */
  datatype Issued = Issued(code: string, expiresAt: int)

  /** `throw new Error('code_gen_failed')`, or an error from the INSERT. */
  datatype IssueError = CodeGenFailed | InsertFailed(cause: DbError)

  /**
   * A time value made integral the way `new Date(t)` does it: the fraction is
   * dropped, toward zero.
   */
  function TruncateTime(t: real): (n: int)
    ensures t >= 0.0 ==> n as real <= t < n as real + 1.0
    ensures t < 0.0 ==> n as real - 1.0 < t <= n as real
  {
    if t >= 0.0 then t.Floor else -((-t).Floor)
  }

  /**
   * The expiry of a credit issued at `now` for `days` days, which need not be a
   * whole number: `now + days * 86400000` milliseconds, truncated.
   */
  function ExpiryOf(now: int, days: real): int {
    TruncateTime(now as real + days * MsPerDay as real)
  }

  /** For a whole number of days the expiry is exactly that many days of milliseconds after `now`. */
  lemma ExpiryOfWholeDays(now: int, days: int)
    ensures ExpiryOf(now, days as real) == now + days * MsPerDay
  {
    var e := now + days * MsPerDay;
    assert now as real + (days as real) * (MsPerDay as real) == e as real;
    if e < 0 {
      assert -(e as real) == (-e) as real;
    }
  }

  /**
   * `issueCreditForUser(tg_user_id, device_id, reason, days)` at time `now` with
   * the random draws `draws`, as the statements run: the revoke, the retry loop,
   * the `if (!code)` guard, the INSERT.
   */
  function Issue(db: Db, user: int, device: string, reason: string, days: real, now: int, draws: seq<real>): (r: (Result<Issued, IssueError>, Db))
    requires DrawsOk(draws)
    ensures r.0 != Failure(CodeGenFailed)
    ensures r.0.Success? ==> IsCode6(r.0.value.code) && r.0.value.expiresAt == ExpiryOf(now, days)
    ensures r.1.users == db.users && r.1.redemptions == db.redemptions && r.1.nextCreditId == db.nextCreditId + 1
  {
    var db1 := db.(credits := RevokeScope(db.credits, user, device));
    FinishIssue(db1, PickCode(db1.credits, draws), user, device, reason, ExpiryOf(now, days), now)
  }

  /** What follows the retry loop: the `if (!code)` guard, then the INSERT of the picked code. */
  function FinishIssue(db: Db, code: string, user: int, device: string, reason: string, expiresAt: int, now: int): (r: (Result<Issued, IssueError>, Db))
    ensures r.0 == Failure(CodeGenFailed) <==> code == ""
    ensures code == "" ==> r.1 == db
    ensures r.0.Success? ==> r.0.value == Issued(code, expiresAt)
    ensures r.1.users == db.users && r.1.redemptions == db.redemptions
  {
    if code == "" then (Failure(CodeGenFailed), db)
    else
      var (ins, db') := InsertCredit(db, code, user, device, reason, expiresAt, now);
      if ins.Success? then (Success(Issued(code, expiresAt)), db')
      else (Failure(InsertFailed(ins.error)), db')
  }

  /** Issuance keeps the tables valid, and only takes credits out of `active` or adds one. */
  lemma IssueValid(db: Db, user: int, device: string, reason: string, days: real, now: int, draws: seq<real>)
    requires Valid(db) && DrawsOk(draws)
    ensures var (_, db') := Issue(db, user, device, reason, days, now, draws);
      Valid(db') && Evolves(db, db')
  {
    var db1 := db.(credits := RevokeScope(db.credits, user, device));
    RevokeScopeValid(db, user, device);
    var code := PickCode(db1.credits, draws);
    InsertValid(db1, code, user, device, reason, ExpiryOf(now, days), now);
    EvolvesTransitive(db, db1, InsertCredit(db1, code, user, device, reason, ExpiryOf(now, days), now).1);
  }

  /** The `code_gen_failed` branch is never taken. */
  lemma CodeGenFailedUnreachable(db: Db, user: int, device: string, reason: string, days: real, now: int, draws: seq<real>)
    requires DrawsOk(draws)
    ensures Issue(db, user, device, reason, days, now, draws).0 != Failure(CodeGenFailed)
  {
    var db1 := db.(credits := RevokeScope(db.credits, user, device));
    PickCodeIsCode6(db1.credits, draws);
  }

  /**
   * Whatever the outcome: credits of other (user, device) pairs are untouched, the
   * active credits of this pair are revoked and its other credits are untouched,
   * and neither the redemptions nor the users change.
   */
  lemma IssueScope(db: Db, user: int, device: string, reason: string, days: real, now: int, draws: seq<real>)
    requires DrawsOk(draws)
    ensures var (_, db') := Issue(db, user, device, reason, days, now, draws);
      && |db.credits| <= |db'.credits|
      && db'.redemptions == db.redemptions && db'.users == db.users
      && (forall i :: 0 <= i < |db.credits| && !InScope(db.credits[i], user, device) ==> db'.credits[i] == db.credits[i])
      && (forall i :: 0 <= i < |db.credits| && InScope(db.credits[i], user, device) ==>
            db'.credits[i] == if db.credits[i].status == Active then db.credits[i].(status := Revoked) else db.credits[i])
  {
  }

  /**
   * Issuance succeeds exactly when the picked code is held by no credit at all;
   * then the returned code is six digits, and the one new row is the active
   * credit for (user, device) with the given reason, expiring `days` days after `now`.
   */
  lemma IssueSuccess(db: Db, user: int, device: string, reason: string, days: real, now: int, draws: seq<real>)
    requires DrawsOk(draws)
    ensures var (r, db') := Issue(db, user, device, reason, days, now, draws);
      var code := PickCode(RevokeScope(db.credits, user, device), draws);
      && (r.Success? <==> !CodeInUse(db.credits, code))
      && (r.Success? ==>
            && r.value == Issued(code, ExpiryOf(now, days))
            && IsCode6(code)
            && db'.credits == RevokeScope(db.credits, user, device) +
                 [Credit(db.nextCreditId, code, user, device, Active, reason, ExpiryOf(now, days), now, None)])
      && (r.Failure? ==> r.error == InsertFailed(UniqueViolation) && |db'.credits| == |db.credits|)
      && db'.nextCreditId == db.nextCreditId + 1
  {
    var cs1 := RevokeScope(db.credits, user, device);
    var code := PickCode(cs1, draws);
    PickCodeIsCode6(cs1, draws);
    RevokeScopeSameKeys(db.credits, user, device);
    SameKeysCodeInUse(db.credits, cs1, code);
  }

  /** After a successful issuance the new credit is the only active one of its (user, device). */
  lemma IssueLeavesOneActive(db: Db, user: int, device: string, reason: string, days: real, now: int, draws: seq<real>, i: nat)
    requires DrawsOk(draws)
    requires var (r, db') := Issue(db, user, device, reason, days, now, draws);
      r.Success? && i < |db'.credits| && InScope(db'.credits[i], user, device) && db'.credits[i].status == Active
    ensures i == |db.credits|
  {
    IssueSuccess(db, user, device, reason, days, now, draws);
  }

  /**
   * A refused INSERT does not undo the revoke: the (user, device) pair is left with
   * no active credit at all. This happens in particular when all 15 candidates
   * collide with active codes, since the loop then keeps a colliding code.
   */
  lemma IssueFailureLeavesNoActive(db: Db, user: int, device: string, reason: string, days: real, now: int, draws: seq<real>, i: nat)
    requires DrawsOk(draws)
    requires var (r, db') := Issue(db, user, device, reason, days, now, draws);
      r.Failure? && i < |db'.credits| && InScope(db'.credits[i], user, device)
    ensures Issue(db, user, device, reason, days, now, draws).1.credits[i].status != Active
  {
    IssueSuccess(db, user, device, reason, days, now, draws);
  }

  lemma ExhaustedIssueFails(db: Db, user: int, device: string, reason: string, days: real, now: int, draws: seq<real>)
    requires DrawsOk(draws)
    requires var cs1 := RevokeScope(db.credits, user, device);
      forall i :: 0 <= i < MaxAttempts ==> HasActiveCode(cs1, GenCode6(draws[i]))
    ensures Issue(db, user, device, reason, days, now, draws).0 == Failure(InsertFailed(UniqueViolation))
  {
    var cs1 := RevokeScope(db.credits, user, device);
    PickCodeExhausted(cs1, draws);
    RevokeScopeSameKeys(db.credits, user, device);
    SameKeysCodeInUse(db.credits, cs1, PickCode(cs1, draws));
    IssueSuccess(db, user, device, reason, days, now, draws);
  }

  /**
   * The body of `POST /api/bot/issue-credit` after JSON decoding and `Number`/`String`
   * conversion: `tgUserId` is `None` for NaN; `deviceId` and `reason` are "" for a
   * missing or falsy field; `days` is `None` for a falsy field.
   */
  datatype IssueBody = IssueBody(tgUserId: Option<int>, deviceId: string, reason: string, days: Option<real>)

  /** The route's replies: `{ok:true, code, expires_at}`, a 400 or 500 with an error tag, or a 500 from an error thrown by the database. */
  datatype IssueReply = IssueOk(code: string, expiresAt: int) | IssueBadRequest | IssueCodeGenFailed | IssueServerError

  /** `String(body.reason || 'problem')`. */
  function ReasonOrDefault(reason: string): (r: string)
    ensures r != ""
    ensures reason != "" ==> r == reason
  {
    if reason == "" then "problem" else reason
  }

  /** `Number(body.days || 7)`. */
  function DaysOrDefault(days: Option<real>): real {
    if days.Some? then days.value else 7.0
  }

  /** `if (!tg_user_id || !device_id)`: NaN, 0 and the empty device id are refused. */
  predicate IssueBodyRejected(body: IssueBody) {
    body.tgUserId.None? || body.tgUserId.value == 0 || body.deviceId == ""
  }

  /** `POST /api/bot/issue-credit`. */
  function IssueRoute(db: Db, body: IssueBody, now: int, draws: seq<real>): (r: (IssueReply, Db))
    requires DrawsOk(draws)
    ensures r.0 == IssueBadRequest <==> IssueBodyRejected(body)
    ensures r.0 != IssueCodeGenFailed
    ensures r.1.users == db.users
  {
    if IssueBodyRejected(body) then (IssueBadRequest, db)
    else
      var (res, db') := Issue(db, body.tgUserId.value, body.deviceId, ReasonOrDefault(body.reason), DaysOrDefault(body.days), now, draws);
      match res
      case Success(i) => (IssueOk(i.code, i.expiresAt), db')
      case Failure(CodeGenFailed) => (IssueCodeGenFailed, db')
      case Failure(InsertFailed(_)) => (IssueServerError, db')
  }

  /** The route answers `bad_request` exactly for a NaN or zero user id or an empty device id, and then changes nothing. */
  lemma IssueRouteBadRequest(db: Db, body: IssueBody, now: int, draws: seq<real>)
    requires DrawsOk(draws)
    ensures var (reply, db') := IssueRoute(db, body, now, draws);
      (reply == IssueBadRequest <==> IssueBodyRejected(body)) && (reply == IssueBadRequest ==> db' == db)
  {
  }

  /** The route keeps the tables valid, only moves credits out of `active`, and leaves the users alone. */
  lemma IssueRouteValid(db: Db, body: IssueBody, now: int, draws: seq<real>)
    requires Valid(db) && DrawsOk(draws)
    ensures var (_, db') := IssueRoute(db, body, now, draws);
      Valid(db') && Evolves(db, db') && db'.users == db.users
  {
    if !IssueBodyRejected(body) {
      var user, reason, days := body.tgUserId.value, ReasonOrDefault(body.reason), DaysOrDefault(body.days);
      IssueRouteState(db, body, now, draws);
      IssueValid(db, user, body.deviceId, reason, days, now, draws);
    }
  }

  /** An accepted body leaves exactly the tables that issuance with the defaulted fields leaves. */
  lemma IssueRouteState(db: Db, body: IssueBody, now: int, draws: seq<real>)
    requires DrawsOk(draws) && !IssueBodyRejected(body)
    ensures IssueRoute(db, body, now, draws).1
      == Issue(db, body.tgUserId.value, body.deviceId, ReasonOrDefault(body.reason), DaysOrDefault(body.days), now, draws).1
  {
  }

  /**
   * An accepted body issues with reason `problem` and 7 days when those fields are
   * missing, never answers `code_gen_failed`, and answers with the code and expiry
   * that issuance produced.
   */
  lemma IssueRouteDefaults(db: Db, body: IssueBody, now: int, draws: seq<real>)
    requires DrawsOk(draws) && !IssueBodyRejected(body)
    ensures var reason := if body.reason == "" then "problem" else body.reason;
      var days := if body.days.None? then 7.0 else body.days.value;
      var (res, db1) := Issue(db, body.tgUserId.value, body.deviceId, reason, days, now, draws);
      var (reply, db2) := IssueRoute(db, body, now, draws);
      && db2 == db1
      && reply != IssueCodeGenFailed
      && (reply.IssueOk? <==> res.Success?)
      && (reply.IssueOk? ==> reply.code == res.value.code && reply.expiresAt == ExpiryOf(now, days))
  {
    CodeGenFailedUnreachable(db, body.tgUserId.value, body.deviceId, ReasonOrDefault(body.reason), DaysOrDefault(body.days), now, draws);
  }
}
