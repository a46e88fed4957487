/**
 * The bot's handlers as they run, statement by statement, against the shared
 * database: each method updates the tables in place and is proved to leave
 * them exactly as the corresponding function of the protocol describes.
 */
module Store {
  import opened Wrappers
  import opened Text
  import opened StartCommand
  import opened CodeGenerator
  import opened Users
  import opened Tables
  import opened Issuance
  import opened Redemption
  import opened Compensation

  /**
   * The collision-retry loop of issuance: draw a candidate, stop at the first one
   * no active credit in `cs` holds, give up after 15 attempts keeping the last.
   */
  method DrawCode(cs: seq<Credit>, draws: seq<real>) returns (code: string)
    requires DrawsOk(draws)
    ensures code == PickCode(cs, draws)
    ensures IsCode6(code)
  {
    code := "";
    var i := 0;
    while i < MaxAttempts
      invariant 0 <= i <= MaxAttempts
      invariant forall j :: 0 <= j < i ==> HasActiveCode(cs, GenCode6(draws[j]))
      invariant i == 0 ==> code == ""
      invariant i > 0 ==> code == GenCode6(draws[i - 1])
    {
      code := GenCode6(draws[i]);
      var taken := HasActiveCode(cs, code);
      if !taken {
        break;
      }
      i := i + 1;
    }
    if i < MaxAttempts {
      PickCodeFirstFree(cs, draws, i);
    } else {
      PickCodeExhausted(cs, draws);
    }
    PickCodeIsCode6(cs, draws);
  }

  /** The Postgres database the handlers share. */
  class Store {
    var credits: seq<Credit>
    var redemptions: seq<Tables.Redemption>
    var nextCreditId: nat
    var users: map<int, UserRow>

    /** The tables as a value. */
    function Snapshot(): Db
      reads this
    {
      Db(credits, redemptions, nextCreditId, users)
    }

    /** The schema's constraints hold and every device on record came from the Telegraf `/start` handler. */
    ghost predicate Valid()
      reads this
    {
      Tables.Valid(Snapshot()) && DevicesWellFormed(users)
    }

    /** A freshly migrated database. */
    constructor ()
      ensures Snapshot() == EmptyDb && Valid()
    {
      credits := [];
      redemptions := [];
      nextCreditId := 1;
      users := map[];
    }

    /** `bot.start`: read the device id from the command, then upsert the user. */
    method Start(user: int, text: Option<string>, payload: Option<string>, now: int)
      requires Valid()
      modifies this
      ensures Snapshot() == old(Snapshot()).(users := UpsertOnStart(old(users), user, ExtractDeviceIdFromStart(text, payload), now))
      ensures Valid()
    {
      var deviceId := ExtractDeviceIdFromStart(text, payload);
      StartKeepsDevicesWellFormed(users, user, text, payload, now);
      users := UpsertOnStart(users, user, deviceId, now);
    }

    /**
     * `issueCreditForUser`: the revoke, the retry loop over at most 15 candidates
     * (`draws` supplies the values of `Math.random()`), the `if (!code)` guard and
     * the INSERT; an error thrown by the INSERT is the `InsertFailed` result.
     */
    method IssueCreditForUser(user: int, device: string, reason: string, days: real, now: int, draws: seq<real>)
      returns (r: Result<Issued, IssueError>)
      requires DrawsOk(draws)
      modifies this
      ensures (r, Snapshot()) == Issue(old(Snapshot()), user, device, reason, days, now, draws)
    {
      var expiresAt := ExpiryOf(now, days);
      credits := RevokeScope(credits, user, device);
      var code := DrawCode(credits, draws);
      r := InsertIssued(code, user, device, reason, expiresAt, now);
    }

    /** The `if (!code)` guard, then the INSERT of the new active credit. */
    method InsertIssued(code: string, user: int, device: string, reason: string, expiresAt: int, now: int)
      returns (r: Result<Issued, IssueError>)
      modifies this
      ensures (r, Snapshot()) == FinishIssue(old(Snapshot()), code, user, device, reason, expiresAt, now)
    {
      if code == "" {
        return Failure(CodeGenFailed);
      }
      var id := nextCreditId;
      nextCreditId := nextCreditId + 1;
      if CodeInUse(credits, code) {
        return Failure(InsertFailed(UniqueViolation));
      }
      credits := credits + [Credit(id, code, user, device, Active, reason, expiresAt, now, None)];
      r := Success(Issued(code, expiresAt));
    }

    /** `POST /api/bot/issue-credit`: validate the body, then issue as `issueCreditForUser` does. */
    method IssueCreditRoute(body: IssueBody, now: int, draws: seq<real>) returns (reply: IssueReply)
      requires Valid() && DrawsOk(draws)
      modifies this
      ensures (reply, Snapshot()) == IssueRoute(old(Snapshot()), body, now, draws)
      ensures Valid() && Evolves(old(Snapshot()), Snapshot())
    {
      IssueRouteValid(Snapshot(), body, now, draws);
      var tgUserId := body.tgUserId;
      var deviceId := body.deviceId;
      var reason := if body.reason == "" then "problem" else body.reason;
      var days := if body.days.Some? then body.days.value else 7.0;
      if tgUserId.None? || tgUserId.value == 0 || deviceId == "" {
        return IssueBadRequest;
      }
      var res := IssueCreditForUser(tgUserId.value, deviceId, reason, days, now, draws);
      match res
      case Success(i) => reply := IssueOk(i.code, i.expiresAt);
      case Failure(CodeGenFailed) => reply := IssueCodeGenFailed;
      case Failure(InsertFailed(_)) => reply := IssueServerError;
    }

    /** `handleCompensation`: find the user's device, ask to scan when there is none, else issue for it. */
    method HandleCompensation(user: int, reason: string, days: real, now: int, draws: seq<real>)
      returns (out: CompensationOutcome)
      requires Valid() && DrawsOk(draws)
      modifies this
      ensures (out, Snapshot()) == Compensate(old(Snapshot()), user, reason, days, now, draws)
      ensures Valid() && Evolves(old(Snapshot()), Snapshot())
    {
      CompensateValid(Snapshot(), user, reason, days, now, draws);
      var row: Option<string> := if user in users then users[user].currentDeviceId else None;
      var deviceId := if row.Some? && row.value != "" then row.value else UnknownDevice;
      if deviceId == "" || deviceId == UnknownDevice {
        return AskToScan;
      }
      var res := IssueCreditForUser(user, deviceId, reason, days, now, draws);
      match res
      case Success(i) => out := Compensated(i.code, i.expiresAt);
      case Failure(e) => out := CompensationFailed(e);
    }

    /** The problem-menu actions: "Other" only answers; the other three compensate on their terms. */
    method HandleProblemAction(user: int, choice: ProblemChoice, now: int, draws: seq<real>)
      returns (reply: ProblemReply)
      requires Valid() && DrawsOk(draws)
      modifies this
      ensures (reply, Snapshot()) == HandleProblem(old(Snapshot()), user, choice, now, draws)
      ensures Valid() && Evolves(old(Snapshot()), Snapshot())
    {
      HandleProblemValid(Snapshot(), user, choice, now, draws);
      match choice
      case NoSpray =>
        var out := HandleCompensation(user, "problem", 30.0, now, draws);
        reply := Compensation(out);
      case Weak =>
        var out := HandleCompensation(user, "problem", 7.0, now, draws);
        reply := Compensation(out);
      case Empty =>
        var out := HandleCompensation(user, "problem", 7.0, now, draws);
        reply := Compensation(out);
      case Other =>
        reply := WriteToUs;
    }

    /**
     * The read phase of `POST /api/device/redeem-credit`: the key check, the
     * presence check, the SELECT by code and the checks on the row it returns.
     */
    method LookupCredit(configured: Option<string>, req: RedeemRequest, now: int) returns (d: Decision)
      ensures d == Lookup(credits, configured, req, now)
      ensures d == Deny(BadKey) <==> configured != Some(req.apiKey)
      ensures !d.Deny? ==> RowOfId(credits, d.id).Some?
    {
      LookupOrder(credits, configured, req, now);
      if configured != Some(req.apiKey) {
        return Deny(BadKey);
      }
      var code := Trim(req.code);
      if req.deviceId == "" || code == "" {
        return Deny(BadRequest);
      }
      var rows := SelectByCode(credits, code);
      if rows.None? {
        return Deny(NotFound);
      }
      var c := credits[rows.value];
      if c.deviceId != req.deviceId {
        return Deny(WrongDevice);
      }
      if c.status != Active {
        return Deny(NotActive);
      }
      if now > c.expiresAt {
        return ExpireCredit(c.id);
      }
      d := ConsumeCredit(c.id);
    }

    /**
     * The write phase, on the tables as they are when it runs: the guarded
     * `expired` update and a `denied` row, or the guarded `used` update followed
     * by a `success` row if it touched a row and a `race` denial if it did not.
     */
    method CommitRedeem(d: Decision, device: string, now: int) returns (reply: RedeemReply)
      requires Committable(credits, d)
      modifies this
      ensures (reply, Snapshot()) == Commit(old(Snapshot()), d, device, now)
    {
      match d
      case Deny(reason) =>
        reply := Denied(reason);
      case ExpireCredit(id) =>
        credits := ExpireIfActive(credits, id);
        redemptions := redemptions + [Tables.Redemption(id, device, ResultDenied, now)];
        reply := Denied(CodeExpired);
      case ConsumeCredit(id) =>
        var updated := ActiveWithId(credits, id);
        credits := ConsumeIfActive(credits, id, now);
        if !updated {
          redemptions := redemptions + [Tables.Redemption(id, device, ResultDenied, now)];
          return Denied(Race);
        }
        redemptions := redemptions + [Tables.Redemption(id, device, ResultSuccess, now)];
        reply := Ok;
    }

    /** `POST /api/device/redeem-credit` with nothing running between its read and its writes. */
    method RedeemCredit(configured: Option<string>, req: RedeemRequest, now: int) returns (reply: RedeemReply)
      requires Valid()
      modifies this
      ensures (reply, Snapshot()) == Redeem(old(Snapshot()), configured, req, now)
      ensures Valid() && Evolves(old(Snapshot()), Snapshot())
    {
      RedeemValid(Snapshot(), configured, req, now);
      var d := LookupCredit(configured, req, now);
      reply := CommitRedeem(d, req.deviceId, now);
    }
  }
}
