/**
 * Service compensation from the Telegram problem menu (`handleCompensation` and
 * the `CB_PROBLEM_*` actions): a credit is issued for the device the user last
 * scanned, and a user with no device on record is asked to scan the QR code first.
 */
module Compensation {
  import opened Wrappers
  import opened StartCommand
  import opened Users
  import opened Tables
  import opened Issuance

  /** The placeholder `handleCompensation` uses when no device is on record. */
  const UnknownDevice: string := "UNKNOWN"

  /** The user has a non-empty device id on record. */
  predicate HasDevice(users: map<int, UserRow>, user: int) {
    user in users && users[user].currentDeviceId.Some? && users[user].currentDeviceId.value != ""
  }

  /**
   * `rows?.[0]?.current_device_id || 'UNKNOWN'`: the recorded device, or the
   * placeholder when there is no row, the column is NULL, or it holds "".
   */
  function CompensationDevice(users: map<int, UserRow>, user: int): (d: string)
    ensures d != ""
    ensures HasDevice(users, user) ==> d == users[user].currentDeviceId.value
    ensures !HasDevice(users, user) ==> d == UnknownDevice
  {
    if HasDevice(users, user) then users[user].currentDeviceId.value else UnknownDevice
  }

  /** `if (!device_id || device_id === 'UNKNOWN')`. */
  predicate NeedsScan(device: string) {
    device == "" || device == UnknownDevice
  }

  /** What the user sees: the request to scan, the code with its expiry, or an error thrown by issuance. */
  datatype CompensationOutcome = AskToScan | Compensated(code: string, expiresAt: int) | CompensationFailed(error: IssueError)

  /** `handleCompensation(ctx, reason, days)` for the Telegram user `user`. */
  function Compensate(db: Db, user: int, reason: string, days: real, now: int, draws: seq<real>): (r: (CompensationOutcome, Db))
    requires DrawsOk(draws)
    ensures r.0 == AskToScan ==> r.1 == db
    ensures r.0 != CompensationFailed(CodeGenFailed)
    ensures r.1.users == db.users
  {
    var device := CompensationDevice(db.users, user);
    if NeedsScan(device) then (AskToScan, db)
    else
      var (res, db') := Issue(db, user, device, reason, days, now, draws);
      match res
      case Success(i) => (Compensated(i.code, i.expiresAt), db')
      case Failure(e) => (CompensationFailed(e), db')
  }

  /** The placeholder is not a device id `/start` would accept. */
  lemma UnknownIsNotADeviceId()
    ensures !IsDeviceIdFormat(UnknownDevice)
  {
    assert UnknownDevice[|UnknownDevice| - 3] == 'O';
  }

  /**
   * The gate: the user is asked to scan exactly when no device other than the
   * literal "UNKNOWN" is on record, and then nothing is written; otherwise the
   * outcome and new state are those of issuing for the recorded device.
   */
  lemma CompensationGate(db: Db, user: int, reason: string, days: real, now: int, draws: seq<real>)
    requires DrawsOk(draws)
    ensures var (out, db') := Compensate(db, user, reason, days, now, draws);
      && (out == AskToScan <==> (!HasDevice(db.users, user) || db.users[user].currentDeviceId.value == UnknownDevice))
      && (out == AskToScan ==> db' == db)
      && (out != AskToScan ==>
            var (res, db2) := Issue(db, user, db.users[user].currentDeviceId.value, reason, days, now, draws);
            && db' == db2
            && (out.Compensated? <==> res.Success?)
            && (out.Compensated? ==> out.code == res.value.code && out.expiresAt == res.value.expiresAt))
  {
  }

  /**
   * When every device on record came from `/start`, the user is asked to scan
   * exactly when they have no device on record.
   */
  lemma AskToScanIffNoDevice(db: Db, user: int, reason: string, days: real, now: int, draws: seq<real>)
    requires DrawsOk(draws) && DevicesWellFormed(db.users)
    ensures Compensate(db, user, reason, days, now, draws).0 == AskToScan <==>
      (user !in db.users || db.users[user].currentDeviceId.None?)
  {
    UnknownIsNotADeviceId();
    CompensationGate(db, user, reason, days, now, draws);
  }

  /** Compensation never answers `code_gen_failed`, keeps the tables valid and only moves credits out of `active`. */
  lemma CompensateValid(db: Db, user: int, reason: string, days: real, now: int, draws: seq<real>)
    requires Valid(db) && DrawsOk(draws)
    ensures var (out, db') := Compensate(db, user, reason, days, now, draws);
      && out != CompensationFailed(CodeGenFailed)
      && Valid(db') && Evolves(db, db') && db'.users == db.users
  {
    var device := CompensationDevice(db.users, user);
    if !NeedsScan(device) {
      IssueValid(db, user, device, reason, days, now, draws);
      IssueScope(db, user, device, reason, days, now, draws);
      CodeGenFailedUnreachable(db, user, device, reason, days, now, draws);
    }
  }

  /** The buttons of the problem menu that compensate or answer. */
  datatype ProblemChoice = NoSpray | Weak | Empty | Other

  /** Terms of compensation per button: reason and days, or none for "Other". */
  function CompensationTerms(choice: ProblemChoice): (t: Option<(string, real)>)
    ensures t.None? <==> choice == Other
    ensures t.Some? ==> t.value.0 == "problem"
    ensures t.Some? ==> t.value.1 == (if choice == NoSpray then 30.0 else 7.0)
  {
    match choice
    case NoSpray => Some(("problem", 30.0))
    case Weak => Some(("problem", 7.0))
    case Empty => Some(("problem", 7.0))
    case Other => None
  }

  /** The reply to a problem button: "write to us" for "Other", else the compensation outcome. */
  datatype ProblemReply = WriteToUs | Compensation(outcome: CompensationOutcome)

  /** The `CB_PROBLEM_NO_SPRAY`, `CB_PROBLEM_WEAK`, `CB_PROBLEM_EMPTY` and `CB_PROBLEM_OTHER` actions. */
  function HandleProblem(db: Db, user: int, choice: ProblemChoice, now: int, draws: seq<real>): (r: (ProblemReply, Db))
    requires DrawsOk(draws)
    ensures r.0 == WriteToUs <==> choice == Other
    ensures r.0 == WriteToUs ==> r.1 == db
    ensures r.1.users == db.users
  {
    match CompensationTerms(choice)
    case None => (WriteToUs, db)
    case Some((reason, days)) =>
      var (out, db') := Compensate(db, user, reason, days, now, draws);
      (Compensation(out), db')
  }

  /** A problem button keeps the tables valid, only moves credits out of `active`, and leaves the users alone. */
  lemma HandleProblemValid(db: Db, user: int, choice: ProblemChoice, now: int, draws: seq<real>)
    requires Valid(db) && DrawsOk(draws)
    ensures var (_, db') := HandleProblem(db, user, choice, now, draws);
      Valid(db') && Evolves(db, db') && db'.users == db.users
  {
    if choice != Other {
      var (reason, days) := CompensationTerms(choice).value;
      CompensateValid(db, user, reason, days, now, draws);
    }
  }

  /**
   * "Other" writes nothing; a compensation for a failed spray is valid 30 days,
   * one for a weak spray or an empty cartridge 7 days, all with reason `problem`.
   */
  lemma ProblemTerms(db: Db, user: int, choice: ProblemChoice, now: int, draws: seq<real>)
    requires DrawsOk(draws)
    ensures var (reply, db') := HandleProblem(db, user, choice, now, draws);
      && (choice == Other <==> reply == WriteToUs)
      && (choice == Other ==> db' == db)
      && (reply.Compensation? && reply.outcome.Compensated? ==>
            reply.outcome.expiresAt == now + (if choice == NoSpray then 30 else 7) * MsPerDay)
      && (reply.Compensation? && reply.outcome.Compensated? ==>
            var device := db.users[user].currentDeviceId.value;
            |db'.credits| == |db.credits| + 1 &&
            db'.credits[|db.credits|] == Credit(db.nextCreditId, reply.outcome.code, user, device, Active, "problem", reply.outcome.expiresAt, now, None))
  {
    if choice != Other {
      var (reason, days) := CompensationTerms(choice).value;
      var device := CompensationDevice(db.users, user);
      if !NeedsScan(device) {
        IssueSuccess(db, user, device, reason, days, now, draws);
        ExpiryOfWholeDays(now, if choice == NoSpray then 30 else 7);
      }
    }
  }
}
