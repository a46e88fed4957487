/**
 * `POST /api/device/redeem-credit`: a device presents a code; the checks run in a
 * fixed order and the consuming update is a compare-and-set on `status='active'`.
 *
 * The handler reads the credit row once (`Lookup`, no writes) and then writes
 * (`Commit`). Other requests may run between the two, so `Commit` takes the state
 * as it is at write time, which may be any later state of the one `Lookup` saw.
 */
module Redemption {
  import opened Wrappers
  import opened Text
  import opened Tables

  /** `config.deviceApiKey`: the configuration object defines no such property, so it is `undefined`. */
  const ConfiguredDeviceKey: Option<string> := None

  /** Why a redemption is refused. */
  datatype DenyReason = BadKey | BadRequest | NotFound | WrongDevice | NotActive | CodeExpired | Race

  /** The `reason` string of the reply. */
  function ReasonTag(r: DenyReason): string {
    match r
    case BadKey => "bad_key"
    case BadRequest => "bad_request"
    case NotFound => "not_found"
    case WrongDevice => "wrong_device"
    case NotActive => "not_active"
    case CodeExpired => "expired"
    case Race => "race"
  }

  /** `{result:'OK'}` or `{result:'DENIED', reason}`. */
  datatype RedeemReply = Ok | Denied(reason: DenyReason)

  /** The HTTP status: 401 for `bad_key`, 400 for `bad_request`, 200 (with `ok:true`) otherwise. */
  function HttpStatus(r: RedeemReply): (status: int)
    ensures status == 401 <==> r == Denied(BadKey)
    ensures status == 400 <==> r == Denied(BadRequest)
    ensures status in {200, 400, 401}
  {
    if r == Denied(BadKey) then 401 else if r == Denied(BadRequest) then 400 else 200
  }

  /**
   * The request after conversion: the `x-device-api-key` header ("" when absent) and
   * the body fields `device_id` and `code` as strings ("" when missing or falsy);
   * the code is not yet trimmed.
   */
  datatype RedeemRequest = RedeemRequest(apiKey: string, deviceId: string, code: string)

  /** What the read phase decided: a denial, or which credit to expire or consume. */
  datatype Decision = Deny(reason: DenyReason) | ExpireCredit(id: nat) | ConsumeCredit(id: nat)

  /** The read phase: the key check, the presence check, the SELECT by trimmed code, then the checks on the row read, at time `now`. */
  function Lookup(cs: seq<Credit>, configured: Option<string>, req: RedeemRequest, now: int): (d: Decision)
    ensures !d.Deny? ==> RowOfId(cs, d.id).Some?
  {
    if configured != Some(req.apiKey) then Deny(BadKey)
    else
      var code := Trim(req.code);
      if req.deviceId == "" || code == "" then Deny(BadRequest)
      else match SelectByCode(cs, code)
        case None => Deny(NotFound)
        case Some(i) =>
          var c := cs[i];
          if c.deviceId != req.deviceId then Deny(WrongDevice)
          else if c.status != Active then Deny(NotActive)
          else if now > c.expiresAt then ExpireCredit(c.id)
          else ConsumeCredit(c.id)
  }

  /** A decision `Commit` can act on: a denial, or one naming a credit row that exists. */
  predicate Committable(cs: seq<Credit>, d: Decision) {
    d.Deny? || RowOfId(cs, d.id).Some?
  }

  /**
   * The write phase on the state `db` at write time: nothing for a denial; for an
   * expired credit the guarded `expired` update and a `denied` row; otherwise the
   * guarded `used` update, then a `success` row if it touched a row and a `denied`
   * row with reason `race` if it did not.
   */
  function Commit(db: Db, d: Decision, device: string, now: int): (r: (RedeemReply, Db))
    requires Committable(db.credits, d)
    ensures r.1.users == db.users && r.1.nextCreditId == db.nextCreditId
    ensures d.Deny? ==> r == (Denied(d.reason), db)
    ensures !d.Deny? ==>
      && |r.1.redemptions| == |db.redemptions| + 1 && db.redemptions <= r.1.redemptions
      && r.1.redemptions[|db.redemptions|].creditId == d.id
      && r.1.redemptions[|db.redemptions|].deviceId == device
      && (r.1.redemptions[|db.redemptions|].result == ResultSuccess <==> r.0 == Ok)
    ensures d.ExpireCredit? ==> r.0 == Denied(CodeExpired)
    ensures d.ConsumeCredit? ==> r.0 in {Ok, Denied(Race)}
  {
    match d
    case Deny(reason) => (Denied(reason), db)
    case ExpireCredit(id) =>
      var db1 := db.(credits := ExpireIfActive(db.credits, id));
      (Denied(CodeExpired), AppendRedemption(db1, id, device, ResultDenied, now))
    case ConsumeCredit(id) =>
      var updated := ActiveWithId(db.credits, id);
      var db1 := db.(credits := ConsumeIfActive(db.credits, id, now));
      if !updated then (Denied(Race), AppendRedemption(db1, id, device, ResultDenied, now))
      else (Ok, AppendRedemption(db1, id, device, ResultSuccess, now))
  }

  /** A redemption with nothing running in between its read and its writes. */
  function Redeem(db: Db, configured: Option<string>, req: RedeemRequest, now: int): (r: (RedeemReply, Db))
    ensures r.0 == Denied(BadKey) <==> configured != Some(req.apiKey)
    ensures r.0 == Denied(BadKey) ==> r.1 == db
    ensures r.1.users == db.users && r.1.nextCreditId == db.nextCreditId
  {
    Commit(db, Lookup(db.credits, configured, req, now), req.deviceId, now)
  }

  /** Each refusal has its own reason tag: the device can tell every reason apart. */
  lemma ReasonTagsDistinct(a: DenyReason, b: DenyReason)
    ensures ReasonTag(a) == ReasonTag(b) ==> a == b
  {
    if ReasonTag(a) == ReasonTag(b) {
      var t := ReasonTag(a);
      assert t[0] == ReasonTag(b)[0] && |t| == |ReasonTag(b)|;
      if t[0] == 'n' {
        assert t[4] == ReasonTag(b)[4];
      }
    }
  }

  /** A guarded update that matches no active row changes nothing. */
  lemma GuardedUpdatesIdle(cs: seq<Credit>, id: nat, now: int)
    requires !ActiveWithId(cs, id)
    ensures ConsumeIfActive(cs, id, now) == cs && ExpireIfActive(cs, id) == cs
  {
  }

  /** Rows are never deleted, so a decision that named an existing row still does later. */
  lemma CommittableLater(a: Db, b: Db, d: Decision)
    requires Evolves(a, b) && Committable(a.credits, d)
    ensures Committable(b.credits, d)
  {
    if !d.Deny? {
      var i := RowOfId(a.credits, d.id).value;
      assert RowStep(a.credits[i], b.credits[i]);
      assert b.credits[i].id == d.id;
    }
  }

  /**
   * The checks run in a fixed order and short-circuit: each outcome happens exactly
   * when every earlier check passed and its own failed.
   */
  lemma LookupOrder(cs: seq<Credit>, configured: Option<string>, req: RedeemRequest, now: int)
    ensures var d := Lookup(cs, configured, req, now);
      var keyOk := configured == Some(req.apiKey);
      var code := Trim(req.code);
      var present := req.deviceId != "" && code != "";
      var row := SelectByCode(cs, code);
      && (d == Deny(BadKey) <==> !keyOk)
      && (d == Deny(BadRequest) <==> keyOk && !present)
      && (d == Deny(NotFound) <==> keyOk && present && (forall i :: 0 <= i < |cs| ==> cs[i].code != code))
      && (d == Deny(WrongDevice) <==> keyOk && present && row.Some? && cs[row.value].deviceId != req.deviceId)
      && (d == Deny(NotActive) <==>
            (keyOk && present && row.Some? && cs[row.value].deviceId == req.deviceId &&
             cs[row.value].status != Active))
      && (d.ExpireCredit? <==>
            (keyOk && present && row.Some? && cs[row.value].deviceId == req.deviceId &&
             cs[row.value].status == Active && now > cs[row.value].expiresAt))
      && (d.ConsumeCredit? <==>
            (keyOk && present && row.Some? && cs[row.value].deviceId == req.deviceId &&
             cs[row.value].status == Active && now <= cs[row.value].expiresAt))
      && (!d.Deny? ==> d.id == cs[row.value].id)
      && d != Deny(CodeExpired) && d != Deny(Race)
  {
  }

  /** With no key configured, as the configuration stands, every request is refused with `bad_key` and nothing changes. */
  lemma UnconfiguredKeyRefusesAll(db: Db, req: RedeemRequest, now: int)
    ensures Redeem(db, ConfiguredDeviceKey, req, now) == (Denied(BadKey), db)
    ensures HttpStatus(Redeem(db, ConfiguredDeviceKey, req, now).0) == 401
    ensures ReasonTag(Redeem(db, ConfiguredDeviceKey, req, now).0.reason) == "bad_key"
  {
  }

  /**
   * `bad_key`, `bad_request`, `not_found`, `wrong_device` and `not_active` leave every
   * table as it was: no credit changes and no redemption row is written.
   */
  lemma EarlyDenialsChangeNothing(db: Db, configured: Option<string>, req: RedeemRequest, now: int)
    ensures var (reply, db') := Redeem(db, configured, req, now);
      reply in {Denied(BadKey), Denied(BadRequest), Denied(NotFound), Denied(WrongDevice), Denied(NotActive)} <==> db' == db
  {
    var d := Lookup(db.credits, configured, req, now);
    var (reply, db') := Redeem(db, configured, req, now);
    if !d.Deny? {
      assert |db'.redemptions| == |db.redemptions| + 1;
    }
  }

  /**
   * Past its expiry (strictly), an active credit becomes `expired`, one `denied` row
   * is written and the reply is `expired`; up to and including its expiry it is
   * consumed: `used` with `used_at = now`, one `success` row, reply `OK`. No other
   * credit changes.
   */
  lemma RedeemActiveCredit(db: Db, configured: Option<string>, req: RedeemRequest, now: int, i: nat)
    requires Valid(db) && i < |db.credits|
    requires configured == Some(req.apiKey) && req.deviceId != ""
    requires db.credits[i].code == Trim(req.code) && db.credits[i].code != ""
    requires db.credits[i].deviceId == req.deviceId && db.credits[i].status == Active
    ensures var (reply, db') := Redeem(db, configured, req, now);
      var c := db.credits[i];
      && db'.users == db.users && db'.nextCreditId == db.nextCreditId
      && (now > c.expiresAt ==>
            && reply == Denied(CodeExpired)
            && db'.credits == db.credits[i := c.(status := Expired)]
            && db'.redemptions == db.redemptions + [Redemption(c.id, req.deviceId, ResultDenied, now)])
      && (now <= c.expiresAt ==>
            && reply == Ok
            && db'.credits == db.credits[i := c.(status := Used, usedAt := Some(now))]
            && db'.redemptions == db.redemptions + [Redemption(c.id, req.deviceId, ResultSuccess, now)])
  {
    SelectByCodeUnique(db, db.credits[i].code, i);
    var id := db.credits[i].id;
    forall j | 0 <= j < |db.credits| && j != i ensures db.credits[j].id != id {
      assert j < i || i < j;
    }
    assert ExpireIfActive(db.credits, id) == db.credits[i := db.credits[i].(status := Expired)];
    assert ConsumeIfActive(db.credits, id, now) == db.credits[i := db.credits[i].(status := Used, usedAt := Some(now))];
  }

  /** Run without interference, a redemption never loses the race. */
  lemma SequentialNeverRaces(db: Db, configured: Option<string>, req: RedeemRequest, now: int)
    ensures Redeem(db, configured, req, now).0 != Denied(Race)
  {
    var d := Lookup(db.credits, configured, req, now);
    if d.ConsumeCredit? {
      var i := SelectByCode(db.credits, Trim(req.code)).value;
      assert db.credits[i].id == d.id && db.credits[i].status == Active;
    }
  }

  /**
   * The compare-and-set decides: committed on whatever state holds at write time,
   * a consume either finds the credit still active and wins, or finds it no longer
   * active, changes no credit, writes one `denied` row and answers `race`.
   */
  lemma CommitConsume(db: Db, id: nat, device: string, now: int)
    requires RowOfId(db.credits, id).Some?
    ensures var (reply, db') := Commit(db, ConsumeCredit(id), device, now);
      && (ActiveWithId(db.credits, id) ==>
            reply == Ok && db'.credits == ConsumeIfActive(db.credits, id, now) &&
            db'.redemptions == db.redemptions + [Redemption(id, device, ResultSuccess, now)])
      && (!ActiveWithId(db.credits, id) ==>
            reply == Denied(Race) && db'.credits == db.credits &&
            db'.redemptions == db.redemptions + [Redemption(id, device, ResultDenied, now)])
  {
    if !ActiveWithId(db.credits, id) {
      GuardedUpdatesIdle(db.credits, id, now);
    }
  }

  /**
   * The expire branch on whatever state holds at write time: the guarded `expired`
   * update and one `denied` row, answering `expired`. A credit no longer active
   * (consumed, say, by a request that ran in between) is left as it is.
   */
  lemma CommitExpire(db: Db, id: nat, device: string, now: int)
    requires RowOfId(db.credits, id).Some?
    ensures var (reply, db') := Commit(db, ExpireCredit(id), device, now);
      && reply == Denied(CodeExpired)
      && db'.credits == ExpireIfActive(db.credits, id)
      && db'.redemptions == db.redemptions + [Redemption(id, device, ResultDenied, now)]
      && (!ActiveWithId(db.credits, id) ==> db'.credits == db.credits)
      && (forall i :: 0 <= i < |db.credits| && db.credits[i].status != Active ==> db'.credits[i] == db.credits[i])
  {
    if !ActiveWithId(db.credits, id) {
      GuardedUpdatesIdle(db.credits, id, now);
    }
  }

  /** A redemption keeps the tables valid, only moves credits out of `active`, and leaves the users alone. */
  lemma RedeemValid(db: Db, configured: Option<string>, req: RedeemRequest, now: int)
    requires Valid(db)
    ensures var (_, db') := Redeem(db, configured, req, now);
      Valid(db') && Evolves(db, db') && db'.users == db.users
  {
    var d := Lookup(db.credits, configured, req, now);
    CommitValid(db, d, req.deviceId, now);
    assert Redeem(db, configured, req, now) == Commit(db, d, req.deviceId, now);
  }

  /** Every commit keeps the tables valid and is a legal evolution: no credit ever leaves `used`, `expired` or `revoked`. */
  lemma CommitValid(db: Db, d: Decision, device: string, now: int)
    requires Valid(db) && Committable(db.credits, d)
    ensures var (_, db') := Commit(db, d, device, now);
      Valid(db') && Evolves(db, db') && db'.users == db.users
  {
    match d
    case Deny(_) =>
    case ExpireCredit(id) =>
      ExpireValid(db, id);
      var db1 := db.(credits := ExpireIfActive(db.credits, id));
      CommittableLater(db, db1, d);
      AppendDeniedValid(db1, id, device, now);
      EvolvesTransitive(db, db1, AppendRedemption(db1, id, device, ResultDenied, now));
    case ConsumeCredit(id) =>
      if ActiveWithId(db.credits, id) {
        ConsumeValid(db, id, device, now);
      } else {
        GuardedUpdatesIdle(db.credits, id, now);
        AppendDeniedValid(db, id, device, now);
      }
  }

  /** An `OK` reply is exactly a new `success` row; any other reply adds no `success` row to any credit. */
  lemma OkIsARecordedSuccess(db: Db, d: Decision, device: string, now: int, x: nat)
    requires Committable(db.credits, d)
    ensures var (reply, db') := Commit(db, d, device, now);
      SuccessCount(db'.redemptions, x) ==
        SuccessCount(db.redemptions, x) + (if reply == Ok && d.id == x then 1 else 0)
  {
    var (reply, db') := Commit(db, d, device, now);
    if !d.Deny? {
      var r := db'.redemptions[|db'.redemptions| - 1];
      assert db'.redemptions == db.redemptions + [r];
      SuccessCountAppend(db.redemptions, r, x);
    }
  }

  /** In a valid state no credit has more than one `success` row: whatever the interleaving, at most one `OK` per credit. */
  lemma AtMostOneSuccess(db: Db, x: nat)
    requires Valid(db)
    ensures SuccessCount(db.redemptions, x) <= 1
  {
    var row := RowOfId(db.credits, x);
    if row.None? {
      forall k | 0 <= k < |db.redemptions| ensures db.redemptions[k].creditId != x {
        assert RowOfId(db.credits, db.redemptions[k].creditId).Some?;
      }
      SuccessCountUnreferenced(db.redemptions, x);
    } else {
      assert SuccessCount(db.redemptions, db.credits[row.value].id) <= 1;
    }
  }

  /**
   * Once a commit has answered `OK` for a credit, no commit on any valid later state
   * answers `OK` for it again, whatever it decided from whatever it read.
   */
  lemma NoSecondOk(db: Db, id: nat, device: string, now: int, later: Db, d: Decision, device': string, now': int)
    requires Valid(db) && RowOfId(db.credits, id).Some?
    requires Commit(db, ConsumeCredit(id), device, now).0 == Ok
    requires Evolves(Commit(db, ConsumeCredit(id), device, now).1, later) && Valid(later)
    requires Committable(later.credits, d) && !d.Deny? && d.id == id
    ensures Commit(later, d, device', now').0 != Ok
  {
    var db1 := Commit(db, ConsumeCredit(id), device, now).1;
    CommitValid(db, ConsumeCredit(id), device, now);
    CommitConsume(db, id, device, now);
    var w := RowOfId(db.credits, id).value;
    ActiveWithIdAt(db, w);
    assert ActiveWithId(db.credits, id);
    assert db1.credits == ConsumeIfActive(db.credits, id, now);
    assert db1.credits[w].status == Used;
    TerminalRowsFrozen(db1, later, w);
    ActiveWithIdAt(later, w);
    CommitConsume(later, id, device', now');
  }

  /** After an `OK`, presenting the same code again answers `not_active`. */
  lemma RepeatAfterOkIsNotActive(db: Db, configured: Option<string>, req: RedeemRequest, now: int, now': int)
    requires Valid(db) && Redeem(db, configured, req, now).0 == Ok
    ensures Redeem(Redeem(db, configured, req, now).1, configured, req, now').0 == Denied(NotActive)
  {
    RedeemAgain(db, configured, req, now, now');
  }

  /** After `expired`, presenting the same code again answers `not_active`. */
  lemma RepeatAfterExpiredIsNotActive(db: Db, configured: Option<string>, req: RedeemRequest, now: int, now': int)
    requires Valid(db) && Redeem(db, configured, req, now).0 == Denied(CodeExpired)
    ensures Redeem(Redeem(db, configured, req, now).1, configured, req, now').0 == Denied(NotActive)
  {
    RedeemAgain(db, configured, req, now, now');
  }

  lemma RedeemAgain(db: Db, configured: Option<string>, req: RedeemRequest, now: int, now': int)
    requires Valid(db)
    requires Redeem(db, configured, req, now).0 in {Ok, Denied(CodeExpired)}
    ensures Redeem(Redeem(db, configured, req, now).1, configured, req, now').0 == Denied(NotActive)
  {
    var code := Trim(req.code);
    var i := SelectByCode(db.credits, code).value;
    RedeemActiveCredit(db, configured, req, now, i);
    var db1 := Redeem(db, configured, req, now).1;
    CommitValid(db, Lookup(db.credits, configured, req, now), req.deviceId, now);
    assert db1.credits[i].code == code;
    SelectByCodeUnique(db1, code, i);
  }

  /**
   * Two guarded consumes of one active credit, the second on the state the first
   * left: the first answers `OK`, the second `race`.
   */
  lemma ConsumeTwiceOneWinner(db: Db, w: nat, device1: string, now1: int, device2: string, now2: int)
    requires Valid(db) && w < |db.credits| && db.credits[w].status == Active
    ensures var id := db.credits[w].id;
      var (a, db1) := Commit(db, ConsumeCredit(id), device1, now1);
      && a == Ok
      && RowOfId(db1.credits, id).Some?
      && Commit(db1, ConsumeCredit(id), device2, now2).0 == Denied(Race)
  {
    var id := db.credits[w].id;
    ActiveWithIdAt(db, w);
    RowOfIdUnique(db, w);
    CommitConsume(db, id, device1, now1);
    var db1 := Commit(db, ConsumeCredit(id), device1, now1).1;
    CommitValid(db, ConsumeCredit(id), device1, now1);
    assert db1.credits == ConsumeIfActive(db.credits, id, now1);
    assert db1.credits[w].status == Used && db1.credits[w].id == id;
    ActiveWithIdAt(db1, w);
    RowOfIdUnique(db1, w);
    CommitConsume(db1, id, device2, now2);
  }

  /**
   * Two redemptions of one active, unexpired credit whose reads both happen before
   * either writes: the first to write answers `OK`, the second `race`.
   */
  lemma ConcurrentPairOneWinner(db: Db, configured: Option<string>, r1: RedeemRequest, r2: RedeemRequest, now1: int, now2: int)
    requires Valid(db)
    requires Lookup(db.credits, configured, r1, now1).ConsumeCredit?
    requires Lookup(db.credits, configured, r2, now2) == Lookup(db.credits, configured, r1, now1)
    ensures var d := Lookup(db.credits, configured, r1, now1);
      var (a, db1) := Commit(db, d, r1.deviceId, now1);
      && a == Ok
      && Committable(db1.credits, d)
      && Commit(db1, d, r2.deviceId, now2).0 == Denied(Race)
  {
    var i := SelectByCode(db.credits, Trim(r1.code)).value;
    ConsumeTwiceOneWinner(db, i, r1.deviceId, now1, r2.deviceId, now2);
  }
}
