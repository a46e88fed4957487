/**
 * The credit protocol end to end: a code the bot issues is redeemable once, on
 * its own device, until it expires; issuing again for the same user and device
 * retires the code issued before.
 */
module Protocol {
  import opened Wrappers
  import opened Text
  import opened Tables
  import opened CodeGenerator
  import opened Issuance
  import opened Redemption

  /**
   * A freshly issued code, presented on its device with the configured key,
   * answers `OK` up to its expiry and `expired` after it; presented on any other
   * device it answers `wrong_device`.
   */
  lemma IssuedCodeRedeems(db: Db, user: int, device: string, reason: string, days: real, now: int, draws: seq<real>,
                          configured: Option<string>, req: RedeemRequest, now': int)
    requires Valid(db) && DrawsOk(draws)
    requires Issue(db, user, device, reason, days, now, draws).0.Success?
    requires Trim(req.code) == Issue(db, user, device, reason, days, now, draws).0.value.code
    requires configured == Some(req.apiKey) && req.deviceId != ""
    ensures var (res, db1) := Issue(db, user, device, reason, days, now, draws);
      var reply := Redeem(db1, configured, req, now').0;
      && (req.deviceId == device && now' <= res.value.expiresAt ==> reply == Ok)
      && (req.deviceId == device && now' > res.value.expiresAt ==> reply == Denied(CodeExpired))
      && (req.deviceId != device ==> reply == Denied(WrongDevice))
  {
    var db1 := Issue(db, user, device, reason, days, now, draws).1;
    IssueValid(db, user, device, reason, days, now, draws);
    IssueSuccess(db, user, device, reason, days, now, draws);
    var n := |db.credits|;
    assert db1.credits[n].code == Trim(req.code) && db1.credits[n].deviceId == device;
    SelectByCodeUnique(db1, Trim(req.code), n);
    if req.deviceId == device {
      RedeemActiveCredit(db1, configured, req, now', n);
    }
  }

  /**
   * Issuing again for a (user, device) pair retires its previous code: presented
   * on that device afterwards, it answers `not_active`, whether or not the new
   * issuance succeeded.
   */
  lemma ReissueRetiresOldCode(db: Db, user: int, device: string, reason: string, days: real, now: int, draws: seq<real>,
                              i: nat, configured: Option<string>, req: RedeemRequest, now': int)
    requires Valid(db) && DrawsOk(draws)
    requires i < |db.credits| && InScope(db.credits[i], user, device) && db.credits[i].status == Active
    requires Trim(req.code) == db.credits[i].code && db.credits[i].code != ""
    requires configured == Some(req.apiKey) && req.deviceId == device && device != ""
    ensures Redeem(Issue(db, user, device, reason, days, now, draws).1, configured, req, now').0 == Denied(NotActive)
  {
    var db1 := Issue(db, user, device, reason, days, now, draws).1;
    IssueValid(db, user, device, reason, days, now, draws);
    IssueScope(db, user, device, reason, days, now, draws);
    assert db1.credits[i] == db.credits[i].(status := Revoked);
    SelectByCodeUnique(db1, Trim(req.code), i);
  }
}
