/**
 * The `credits` and `redemptions` tables (with `users`) as in-memory state, and
 * one function per SQL statement the credit protocol runs against them.
 */
module Tables {
  import opened Wrappers
  import opened Users

  /** `days * 24 * 60 * 60 * 1000`: milliseconds per day. */
  const MsPerDay: int := 24 * 60 * 60 * 1000

  /** `credits.status`: active|used|expired|revoked. */
  datatype Status = Active | Used | Expired | Revoked

  /** One row of `credits`. Times are milliseconds since the epoch. */
  datatype Credit = Credit(
    id: nat,
    code: string,
    userId: int,
    deviceId: string,
    status: Status,
    reason: string,
    expiresAt: int,
    createdAt: int,
    usedAt: Option<int>)

  /** `redemptions.result`: success|denied|error (the bot never writes `error`). */
  datatype AttemptResult = ResultSuccess | ResultDenied | ResultError

  /** One row of `redemptions`, the audit trail; its serial id is its position. */
  datatype Redemption = Redemption(creditId: nat, deviceId: string, result: AttemptResult, redeemedAt: int)

  /**
   * The database: the credit rows in insertion order, the redemption rows in
   * insertion order, the next value of the `credits.id` serial, and the users.
   */
  datatype Db = Db(credits: seq<Credit>, redemptions: seq<Redemption>, nextCreditId: nat, users: map<int, UserRow>)

  /** A freshly migrated database: empty tables, serials starting at 1. */
  const EmptyDb: Db := Db([], [], 1, map[])

  /** The error the database raises on an INSERT the schema refuses. */
  datatype DbError = UniqueViolation

  predicate IsTerminal(s: Status) { s != Active }

  /** The redeem route's lookup of a credit by code (at most one row): the row holding `code`, if any. */
  function SelectByCode(cs: seq<Credit>, code: string): (r: Option<nat>)
    ensures r.Some? ==> r.value < |cs| && cs[r.value].code == code
    ensures r.None? <==> forall i :: 0 <= i < |cs| ==> cs[i].code != code
  {
    SelectByCodeFrom(cs, code, 0)
  }

  function SelectByCodeFrom(cs: seq<Credit>, code: string, k: nat): (r: Option<nat>)
    requires k <= |cs|
    ensures r.Some? ==> k <= r.value < |cs| && cs[r.value].code == code
    ensures r.None? <==> forall i :: k <= i < |cs| ==> cs[i].code != code
    decreases |cs| - k
  {
    if k == |cs| then None
    else if cs[k].code == code then Some(k)
    else SelectByCodeFrom(cs, code, k + 1)
  }

  /** The first row carrying `id` (the primary key: under `Valid` the only one). */
  function RowOfId(cs: seq<Credit>, id: nat): (r: Option<nat>)
    ensures r.Some? ==> r.value < |cs| && cs[r.value].id == id
    ensures r.None? <==> forall i :: 0 <= i < |cs| ==> cs[i].id != id
  {
    RowOfIdFrom(cs, id, 0)
  }

  function RowOfIdFrom(cs: seq<Credit>, id: nat, k: nat): (r: Option<nat>)
    requires k <= |cs|
    ensures r.Some? ==> k <= r.value < |cs| && cs[r.value].id == id
    ensures r.None? <==> forall i :: k <= i < |cs| ==> cs[i].id != id
    decreases |cs| - k
  {
    if k == |cs| then None
    else if cs[k].id == id then Some(k)
    else RowOfIdFrom(cs, id, k + 1)
  }

  /** The collision check of the retry loop finds a row: an active credit holds `code`. */
  predicate HasActiveCode(cs: seq<Credit>, code: string) {
    exists i :: 0 <= i < |cs| && cs[i].code == code && cs[i].status == Active
  }

  /** Some row of any status already holds `code` (what `UNIQUE (code)` looks at). */
  predicate CodeInUse(cs: seq<Credit>, code: string) {
    exists i :: 0 <= i < |cs| && cs[i].code == code
  }

  predicate InScope(c: Credit, user: int, device: string) {
    c.userId == user && c.deviceId == device
  }

  /** The revoke before issuance: every active credit of this (user, device) becomes `revoked`. */
  function RevokeScope(cs: seq<Credit>, user: int, device: string): (r: seq<Credit>)
    ensures |r| == |cs|
    ensures forall i :: 0 <= i < |r| ==> r[i] == cs[i] || (cs[i].status == Active && r[i] == cs[i].(status := Revoked))
    ensures forall i :: 0 <= i < |r| && !InScope(cs[i], user, device) ==> r[i] == cs[i]
    ensures forall i :: 0 <= i < |r| && InScope(r[i], user, device) ==> r[i].status != Active
  {
    seq(|cs|, i requires 0 <= i < |cs| =>
      if InScope(cs[i], user, device) && cs[i].status == Active then cs[i].(status := Revoked) else cs[i])
  }

  /** Some row has this id and is still active: the rows a `WHERE id=$1 AND status='active'` update touches. */
  predicate ActiveWithId(cs: seq<Credit>, id: nat) {
    exists i :: 0 <= i < |cs| && cs[i].id == id && cs[i].status == Active
  }

  /** The lazy expiry: the credit with this id becomes `expired`, provided it is still active. */
  function ExpireIfActive(cs: seq<Credit>, id: nat): (r: seq<Credit>)
    ensures |r| == |cs|
    ensures forall i :: 0 <= i < |r| ==> r[i] == cs[i] || (cs[i].status == Active && r[i] == cs[i].(status := Expired))
    ensures forall i :: 0 <= i < |r| && cs[i].id != id ==> r[i] == cs[i]
    ensures !ActiveWithId(r, id)
  {
    seq(|cs|, i requires 0 <= i < |cs| =>
      if cs[i].id == id && cs[i].status == Active then cs[i].(status := Expired) else cs[i])
  }

  /** The consuming compare-and-set: the credit with this id becomes `used` at `now`, provided it is still active. */
  function ConsumeIfActive(cs: seq<Credit>, id: nat, now: int): (r: seq<Credit>)
    ensures |r| == |cs|
    ensures forall i :: 0 <= i < |r| ==>
      r[i] == cs[i] || (cs[i].status == Active && r[i] == cs[i].(status := Used, usedAt := Some(now)))
    ensures forall i :: 0 <= i < |r| && cs[i].id != id ==> r[i] == cs[i]
    ensures !ActiveWithId(r, id)
  {
    seq(|cs|, i requires 0 <= i < |cs| =>
      if cs[i].id == id && cs[i].status == Active then cs[i].(status := Used, usedAt := Some(now)) else cs[i])
  }

  /**
   * The INSERT of a new credit row; `status` takes its default `active`.
   * The serial `id` is drawn first and is spent even when the row is refused; the
   * row is refused when its code is already held by any row (`code TEXT UNIQUE`).
   */
  function InsertCredit(db: Db, code: string, user: int, device: string, reason: string, expiresAt: int, now: int): (r: (Result<Credit, DbError>, Db))
    ensures r.1.nextCreditId == db.nextCreditId + 1 && r.1.redemptions == db.redemptions && r.1.users == db.users
    ensures r.0.Success? <==> !CodeInUse(db.credits, code)
    ensures r.0.Success? ==>
      && r.0.value == Credit(db.nextCreditId, code, user, device, Active, reason, expiresAt, now, None)
      && r.1.credits == db.credits + [r.0.value]
    ensures r.0.Failure? ==> r.0.error == UniqueViolation && r.1.credits == db.credits
  {
    var id := db.nextCreditId;
    var db' := db.(nextCreditId := id + 1);
    if CodeInUse(db.credits, code) then (Failure(UniqueViolation), db')
    else
      var c := Credit(id, code, user, device, Active, reason, expiresAt, now, None);
      (Success(c), db'.(credits := db.credits + [c]))
  }

  /** The INSERT of one audit row into `redemptions`. */
  function AppendRedemption(db: Db, creditId: nat, device: string, result: AttemptResult, now: int): (r: Db)
    ensures r.credits == db.credits && r.users == db.users && r.nextCreditId == db.nextCreditId
    ensures |r.redemptions| == |db.redemptions| + 1 && db.redemptions <= r.redemptions
    ensures r.redemptions[|db.redemptions|] == Redemption(creditId, device, result, now)
  {
    db.(redemptions := db.redemptions + [Redemption(creditId, device, result, now)])
  }

  /** The number of `success` rows recorded against credit `id`. */
  function SuccessCount(rs: seq<Redemption>, id: nat): nat
    decreases |rs|
  {
    if rs == [] then 0
    else SuccessCount(rs[..|rs| - 1], id) + (if rs[|rs| - 1].creditId == id && rs[|rs| - 1].result == ResultSuccess then 1 else 0)
  }

  lemma SuccessCountAppend(rs: seq<Redemption>, r: Redemption, id: nat)
    ensures SuccessCount(rs + [r], id) == SuccessCount(rs, id) + (if r.creditId == id && r.result == ResultSuccess then 1 else 0)
  {
    assert (rs + [r])[..|rs|] == rs;
  }

  lemma {:induction false} SuccessCountUnreferenced(rs: seq<Redemption>, id: nat)
    requires forall k :: 0 <= k < |rs| ==> rs[k].creditId != id
    ensures SuccessCount(rs, id) == 0
    decreases |rs|
  {
    if rs != [] {
      SuccessCountUnreferenced(rs[..|rs| - 1], id);
    }
  }

  /** `id SERIAL PRIMARY KEY`: ids are positive, increasing with insertion order, and below the next serial value. */
  ghost predicate IdsSerial(cs: seq<Credit>, next: nat) {
    && next >= 1
    && (forall i :: 0 <= i < |cs| ==> 1 <= cs[i].id < next)
    && (forall i, j :: 0 <= i < j < |cs| ==> cs[i].id < cs[j].id)
  }

  /** `code TEXT UNIQUE`. */
  ghost predicate CodesUnique(cs: seq<Credit>) {
    forall i, j :: 0 <= i < j < |cs| ==> cs[i].code != cs[j].code
  }

  /** `used_at` is set exactly on the used credits. */
  ghost predicate UsedAtOnUsed(cs: seq<Credit>) {
    forall i :: 0 <= i < |cs| ==> (cs[i].usedAt.Some? <==> cs[i].status == Used)
  }

  /** `credit_id INT NOT NULL REFERENCES credits(id)`. */
  ghost predicate RowsReferenceCredits(cs: seq<Credit>, rs: seq<Redemption>) {
    forall k :: 0 <= k < |rs| ==> RowOfId(cs, rs[k].creditId).Some?
  }

  /** Each credit has one `success` row if it is used and none otherwise: at most one success per credit. */
  ghost predicate OneSuccessPerUse(cs: seq<Credit>, rs: seq<Redemption>) {
    forall i :: 0 <= i < |cs| ==> SuccessCount(rs, cs[i].id) == (if cs[i].status == Used then 1 else 0)
  }

  /** What the schema and the protocol keep true of the tables. */
  ghost predicate Valid(db: Db) {
    && IdsSerial(db.credits, db.nextCreditId)
    && CodesUnique(db.credits)
    && UsedAtOnUsed(db.credits)
    && RowsReferenceCredits(db.credits, db.redemptions)
    && OneSuccessPerUse(db.credits, db.redemptions)
  }

  lemma EmptyDbValid()
    ensures Valid(EmptyDb)
  {
  }

  /** Under `Valid`, the row `SelectByCode` finds is the only one holding that code. */
  lemma SelectByCodeUnique(db: Db, code: string, i: nat)
    requires Valid(db) && i < |db.credits| && db.credits[i].code == code
    ensures SelectByCode(db.credits, code) == Some(i)
  {
    assert SelectByCode(db.credits, code).Some?;
  }

  /** Under `Valid`, a credit's id picks out exactly its row. */
  lemma RowOfIdUnique(db: Db, i: nat)
    requires Valid(db) && i < |db.credits|
    ensures RowOfId(db.credits, db.credits[i].id) == Some(i)
  {
    assert RowOfId(db.credits, db.credits[i].id).Some?;
  }

  /** Under `Valid`, whether id `cs[w].id` is active is whether row `w` is. */
  lemma ActiveWithIdAt(db: Db, w: nat)
    requires Valid(db) && w < |db.credits|
    ensures ActiveWithId(db.credits, db.credits[w].id) <==> db.credits[w].status == Active
  {
    var cs := db.credits;
    forall j | 0 <= j < |cs| && cs[j].id == cs[w].id ensures j == w {
    }
  }

  /**
   * The only change a credit row ever undergoes: it stays as it is, or it leaves
   * `active` for another status (with `used_at` possibly set), every other column kept.
   */
  predicate RowStep(a: Credit, b: Credit) {
    a == b || (a.status == Active && b.status != Active && b == a.(status := b.status, usedAt := b.usedAt))
  }

  ghost predicate CreditsEvolve(a: seq<Credit>, b: seq<Credit>) {
    && |a| <= |b|
    && (forall i :: 0 <= i < |a| ==> RowStep(a[i], b[i]))
  }

  /**
   * `b` is a later state of `a`: no credit row is removed or re-keyed, each row
   * either stays or leaves `active`, redemption rows are only appended, the id
   * serial only grows, and the users table is unconstrained.
   */
  ghost predicate Evolves(a: Db, b: Db) {
    && CreditsEvolve(a.credits, b.credits)
    && a.redemptions <= b.redemptions
    && a.nextCreditId <= b.nextCreditId
  }

  lemma EvolvesTransitive(a: Db, b: Db, c: Db)
    requires Evolves(a, b) && Evolves(b, c)
    ensures Evolves(a, c)
  {
    forall i | 0 <= i < |a.credits| ensures RowStep(a.credits[i], c.credits[i]) {
      assert RowStep(a.credits[i], b.credits[i]) && RowStep(b.credits[i], c.credits[i]);
    }
  }

  /** `used`, `expired` and `revoked` are terminal: a row in one of them never changes again. */
  lemma TerminalRowsFrozen(a: Db, b: Db, i: nat)
    requires Evolves(a, b) && i < |a.credits| && IsTerminal(a.credits[i].status)
    ensures b.credits[i] == a.credits[i]
  {
    assert RowStep(a.credits[i], b.credits[i]);
  }

  /** Two credit tables that agree on every row's id and code. */
  ghost predicate SameKeys(cs: seq<Credit>, cs': seq<Credit>) {
    |cs| == |cs'| && forall i :: 0 <= i < |cs| ==> cs'[i].id == cs[i].id && cs'[i].code == cs[i].code
  }

  /** Tables that agree on keys hold the same codes; an active code is in particular in use. */
  lemma SameKeysCodeInUse(cs: seq<Credit>, cs': seq<Credit>, code: string)
    requires SameKeys(cs, cs')
    ensures CodeInUse(cs, code) <==> CodeInUse(cs', code)
    ensures HasActiveCode(cs', code) ==> CodeInUse(cs, code)
  {
    if CodeInUse(cs, code) {
      var i :| 0 <= i < |cs| && cs[i].code == code;
      assert cs'[i].code == code;
    }
    if CodeInUse(cs', code) {
      var i :| 0 <= i < |cs'| && cs'[i].code == code;
      assert cs[i].code == code;
    }
  }

  lemma RevokeScopeSameKeys(cs: seq<Credit>, user: int, device: string)
    ensures SameKeys(cs, RevokeScope(cs, user, device))
  {
  }

  /** Changing only statuses and `used_at` keeps the key constraints. */
  lemma SameKeysKeepConstraints(cs: seq<Credit>, cs': seq<Credit>, next: nat, rs: seq<Redemption>)
    requires SameKeys(cs, cs')
    ensures IdsSerial(cs, next) ==> IdsSerial(cs', next)
    ensures CodesUnique(cs) ==> CodesUnique(cs')
    ensures RowsReferenceCredits(cs, rs) ==> RowsReferenceCredits(cs', rs)
  {
    if RowsReferenceCredits(cs, rs) {
      forall k | 0 <= k < |rs| ensures RowOfId(cs', rs[k].creditId).Some? {
        var i := RowOfId(cs, rs[k].creditId).value;
        assert cs'[i].id == cs[i].id;
      }
    }
  }

  /**
   * What the revoke and expire updates do: some active rows become `revoked` or
   * `expired`, every other column and every other row kept.
   */
  ghost predicate RetiresOnly(cs: seq<Credit>, cs': seq<Credit>) {
    && |cs| == |cs'|
    && forall i :: 0 <= i < |cs| ==>
         cs'[i] == cs[i] || (cs[i].status == Active && cs'[i].status in {Revoked, Expired} && cs'[i] == cs[i].(status := cs'[i].status))
  }

  lemma RetiresOnlyUsedAt(cs: seq<Credit>, cs': seq<Credit>)
    requires RetiresOnly(cs, cs') && UsedAtOnUsed(cs)
    ensures UsedAtOnUsed(cs')
  {
    forall i | 0 <= i < |cs'| ensures cs'[i].usedAt.Some? <==> cs'[i].status == Used {
      assert cs[i].usedAt.Some? <==> cs[i].status == Used;
    }
  }

  lemma RetiresOnlyCounts(cs: seq<Credit>, cs': seq<Credit>, rs: seq<Redemption>)
    requires RetiresOnly(cs, cs') && OneSuccessPerUse(cs, rs)
    ensures OneSuccessPerUse(cs', rs)
  {
    forall i | 0 <= i < |cs'|
      ensures SuccessCount(rs, cs'[i].id) == (if cs'[i].status == Used then 1 else 0)
    {
      assert SuccessCount(rs, cs[i].id) == (if cs[i].status == Used then 1 else 0);
    }
  }

  /** Retiring active rows keeps the tables valid and is a legal evolution. */
  lemma RetireValid(db: Db, cs': seq<Credit>)
    requires Valid(db) && RetiresOnly(db.credits, cs')
    ensures Valid(db.(credits := cs')) && Evolves(db, db.(credits := cs'))
  {
    assert SameKeys(db.credits, cs');
    SameKeysKeepConstraints(db.credits, cs', db.nextCreditId, db.redemptions);
    RetiresOnlyUsedAt(db.credits, cs');
    RetiresOnlyCounts(db.credits, cs', db.redemptions);
    assert CreditsEvolve(db.credits, cs');
  }

  /** Revoking a scope keeps the tables valid and is a legal evolution. */
  lemma RevokeScopeValid(db: Db, user: int, device: string)
    requires Valid(db)
    ensures var db' := db.(credits := RevokeScope(db.credits, user, device));
      Valid(db') && Evolves(db, db')
  {
    assert RetiresOnly(db.credits, RevokeScope(db.credits, user, device));
    RetireValid(db, RevokeScope(db.credits, user, device));
  }

  /** A guarded `expired` update keeps the tables valid and is a legal evolution. */
  lemma ExpireValid(db: Db, id: nat)
    requires Valid(db)
    ensures var db' := db.(credits := ExpireIfActive(db.credits, id));
      Valid(db') && Evolves(db, db')
  {
    assert RetiresOnly(db.credits, ExpireIfActive(db.credits, id));
    RetireValid(db, ExpireIfActive(db.credits, id));
  }

  /** Appending a `denied` row for an existing credit keeps the tables valid. */
  lemma AppendDeniedValid(db: Db, id: nat, device: string, now: int)
    requires Valid(db) && RowOfId(db.credits, id).Some?
    ensures var db' := AppendRedemption(db, id, device, ResultDenied, now);
      Valid(db') && Evolves(db, db')
  {
    var db' := AppendRedemption(db, id, device, ResultDenied, now);
    var r := Redemption(id, device, ResultDenied, now);
    forall i | 0 <= i < |db.credits|
      ensures SuccessCount(db'.redemptions, db.credits[i].id) == SuccessCount(db.redemptions, db.credits[i].id)
    {
      SuccessCountAppend(db.redemptions, r, db.credits[i].id);
    }
    assert OneSuccessPerUse(db'.credits, db'.redemptions);
    assert RowsReferenceCredits(db'.credits, db'.redemptions);
  }

  /**
   * Marking the active credit `id` used and appending its `success` row keeps the
   * tables valid: its success count goes from zero to one and no other count moves.
   */
  lemma ConsumeValid(db: Db, id: nat, device: string, now: int)
    requires Valid(db) && ActiveWithId(db.credits, id)
    ensures var db' := AppendRedemption(db.(credits := ConsumeIfActive(db.credits, id, now)), id, device, ResultSuccess, now);
      Valid(db') && Evolves(db, db')
  {
    var cs' := ConsumeIfActive(db.credits, id, now);
    var rs' := db.redemptions + [Redemption(id, device, ResultSuccess, now)];
    assert AppendRedemption(db.(credits := cs'), id, device, ResultSuccess, now) == Db(cs', rs', db.nextCreditId, db.users);
    var w :| 0 <= w < |db.credits| && db.credits[w].id == id && db.credits[w].status == Active;
    ConsumeShape(db.credits, db.nextCreditId, db.redemptions, id, now);
    ConsumeCounts(db.credits, db.redemptions, db.nextCreditId, id, device, now, w);
    ConsumeUsedAt(db.credits, id, now);
    ConsumeReferences(db.credits, db.redemptions, id, device, now, w);
  }

  lemma ConsumeShape(cs: seq<Credit>, next: nat, rs: seq<Redemption>, id: nat, now: int)
    requires IdsSerial(cs, next) && CodesUnique(cs) && RowsReferenceCredits(cs, rs)
    ensures var cs' := ConsumeIfActive(cs, id, now);
      IdsSerial(cs', next) && CodesUnique(cs') && RowsReferenceCredits(cs', rs) && CreditsEvolve(cs, cs')
  {
    var cs' := ConsumeIfActive(cs, id, now);
    assert SameKeys(cs, cs');
    SameKeysKeepConstraints(cs, cs', next, rs);
    assert CreditsEvolve(cs, cs');
  }

  lemma ConsumeUsedAt(cs: seq<Credit>, id: nat, now: int)
    requires UsedAtOnUsed(cs)
    ensures UsedAtOnUsed(ConsumeIfActive(cs, id, now))
  {
    var cs' := ConsumeIfActive(cs, id, now);
    forall i | 0 <= i < |cs'| ensures cs'[i].usedAt.Some? <==> cs'[i].status == Used {
      assert cs[i].usedAt.Some? <==> cs[i].status == Used;
    }
  }

  lemma ConsumeReferences(cs: seq<Credit>, rs: seq<Redemption>, id: nat, device: string, now: int, w: nat)
    requires RowsReferenceCredits(ConsumeIfActive(cs, id, now), rs)
    requires w < |cs| && cs[w].id == id
    ensures RowsReferenceCredits(ConsumeIfActive(cs, id, now), rs + [Redemption(id, device, ResultSuccess, now)])
  {
    var cs' := ConsumeIfActive(cs, id, now);
    var rs' := rs + [Redemption(id, device, ResultSuccess, now)];
    forall k | 0 <= k < |rs'| ensures RowOfId(cs', rs'[k].creditId).Some? {
      if k == |rs| {
        assert cs'[w].id == id;
      } else {
        assert rs'[k] == rs[k];
      }
    }
  }

  lemma ConsumeCounts(cs: seq<Credit>, rs: seq<Redemption>, next: nat, id: nat, device: string, now: int, w: nat)
    requires IdsSerial(cs, next) && OneSuccessPerUse(cs, rs)
    requires w < |cs| && cs[w].id == id && cs[w].status == Active
    ensures OneSuccessPerUse(ConsumeIfActive(cs, id, now), rs + [Redemption(id, device, ResultSuccess, now)])
  {
    var cs' := ConsumeIfActive(cs, id, now);
    var r := Redemption(id, device, ResultSuccess, now);
    forall i | 0 <= i < |cs'|
      ensures SuccessCount(rs + [r], cs'[i].id) == (if cs'[i].status == Used then 1 else 0)
    {
      SuccessCountAppend(rs, r, cs[i].id);
      if i != w {
        assert i < w || w < i;
        assert cs[i].id != id;
      }
    }
  }

  /** A successful INSERT keeps the tables valid and is a legal evolution; a refused one changes only the serial. */
  lemma InsertValid(db: Db, code: string, user: int, device: string, reason: string, expiresAt: int, now: int)
    requires Valid(db)
    ensures var (r, db') := InsertCredit(db, code, user, device, reason, expiresAt, now);
      Valid(db') && Evolves(db, db')
  {
    if CodeInUse(db.credits, code) {
      SpendSerialValid(db);
    } else {
      InsertSuccessValid(db, Credit(db.nextCreditId, code, user, device, Active, reason, expiresAt, now, None));
    }
  }

  /** Drawing a serial value without inserting a row keeps the tables valid. */
  lemma SpendSerialValid(db: Db)
    requires Valid(db)
    ensures Valid(db.(nextCreditId := db.nextCreditId + 1)) && Evolves(db, db.(nextCreditId := db.nextCreditId + 1))
  {
    assert CreditsEvolve(db.credits, db.credits) by {
      forall i | 0 <= i < |db.credits| ensures RowStep(db.credits[i], db.credits[i]) {
      }
    }
  }

  lemma InsertSuccessValid(db: Db, c: Credit)
    requires Valid(db) && !CodeInUse(db.credits, c.code)
    requires c.id == db.nextCreditId && c.status == Active && c.usedAt.None?
    ensures var db' := db.(credits := db.credits + [c], nextCreditId := c.id + 1);
      Valid(db') && Evolves(db, db')
  {
    var cs' := db.credits + [c];
    InsertIdsSerial(db.credits, c);
    InsertCodesUnique(db.credits, c);
    InsertReferences(db.credits, db.redemptions, c);
    InsertCounts(db.credits, db.redemptions, c);
    assert UsedAtOnUsed(cs') by {
      forall i | 0 <= i < |cs'| ensures cs'[i].usedAt.Some? <==> cs'[i].status == Used {
        if i < |db.credits| {
          assert cs'[i] == db.credits[i];
        }
      }
    }
    assert CreditsEvolve(db.credits, cs') by {
      forall i | 0 <= i < |db.credits| ensures RowStep(db.credits[i], cs'[i]) {
        assert cs'[i] == db.credits[i];
      }
    }
  }

  lemma InsertIdsSerial(cs: seq<Credit>, c: Credit)
    requires IdsSerial(cs, c.id)
    ensures IdsSerial(cs + [c], c.id + 1)
  {
    var cs' := cs + [c];
    forall i, j | 0 <= i < j < |cs'| ensures cs'[i].id < cs'[j].id {
      assert cs'[i] == cs[i];
      if j < |cs| {
        assert cs'[j] == cs[j];
      }
    }
    forall i | 0 <= i < |cs'| ensures 1 <= cs'[i].id < c.id + 1 {
      if i < |cs| {
        assert cs'[i] == cs[i];
      }
    }
  }

  lemma InsertCodesUnique(cs: seq<Credit>, c: Credit)
    requires CodesUnique(cs) && !CodeInUse(cs, c.code)
    ensures CodesUnique(cs + [c])
  {
    var cs' := cs + [c];
    forall i, j | 0 <= i < j < |cs'| ensures cs'[i].code != cs'[j].code {
      assert cs'[i] == cs[i];
      if j < |cs| {
        assert cs'[j] == cs[j];
      }
    }
  }

  lemma InsertReferences(cs: seq<Credit>, rs: seq<Redemption>, c: Credit)
    requires RowsReferenceCredits(cs, rs)
    ensures RowsReferenceCredits(cs + [c], rs)
  {
    var cs' := cs + [c];
    forall k | 0 <= k < |rs| ensures RowOfId(cs', rs[k].creditId).Some? {
      var i := RowOfId(cs, rs[k].creditId).value;
      assert cs'[i] == cs[i];
    }
  }

  /** The new credit has no redemption row yet, so every success count is as it was and the new one is zero. */
  lemma InsertCounts(cs: seq<Credit>, rs: seq<Redemption>, c: Credit)
    requires IdsSerial(cs, c.id) && RowsReferenceCredits(cs, rs) && OneSuccessPerUse(cs, rs)
    requires c.status == Active
    ensures OneSuccessPerUse(cs + [c], rs)
  {
    var cs' := cs + [c];
    forall k | 0 <= k < |rs| ensures rs[k].creditId != c.id {
      var i := RowOfId(cs, rs[k].creditId).value;
      assert cs[i].id < c.id;
    }
    SuccessCountUnreferenced(rs, c.id);
    forall i | 0 <= i < |cs'| ensures SuccessCount(rs, cs'[i].id) == (if cs'[i].status == Used then 1 else 0) {
      if i < |cs| {
        assert cs'[i] == cs[i];
      }
    }
  }
}
