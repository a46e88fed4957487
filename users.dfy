/**
 * The `users` table as `bot.start` writes it: one row per Telegram user id, holding
 * the device the user last scanned (`current_device_id`, nullable) and when the
 * user was first and last seen.
 */
module Users {
  import opened Wrappers
  import opened StartCommand

  datatype UserRow = UserRow(currentDeviceId: Option<string>, firstSeenAt: int, lastSeenAt: int)

  /** SQL `COALESCE(a, b)` on two nullable values: the first that is not NULL. */
  function Coalesce(a: Option<string>, b: Option<string>): (r: Option<string>)
    ensures r.Some? <==> a.Some? || b.Some?
    ensures a.Some? ==> r == a
    ensures a.None? ==> r == b
  {
    if a.Some? then a else b
  }

  /**
   * The upsert `bot.start` runs on `users`, keyed by `tg_user_id`: a new user gets
   * a fresh row with both times set to now; on conflict a known user keeps their
   * first-seen time, gets a new last-seen time, and keeps their previous device
   * unless this `/start` carried a valid one (`COALESCE` of the new and old value).
   */
  function UpsertOnStart(users: map<int, UserRow>, user: int, device: Option<string>, now: int): (r: map<int, UserRow>)
    ensures r.Keys == users.Keys + {user}
    ensures forall u :: u in users && u != user ==> r[u] == users[u]
    ensures r[user].lastSeenAt == now
    ensures r[user].firstSeenAt == (if user in users then users[user].firstSeenAt else now)
    ensures device.Some? ==> r[user].currentDeviceId == device
    ensures device.None? ==> r[user].currentDeviceId == (if user in users then users[user].currentDeviceId else None)
  {
    if user in users then
      users[user := users[user].(lastSeenAt := now, currentDeviceId := Coalesce(device, users[user].currentDeviceId))]
    else
      users[user := UserRow(device, now, now)]
  }

  /** Once a user has a device on record, no later `/start` takes it away. */
  lemma UpsertNeverForgetsDevice(users: map<int, UserRow>, user: int, device: Option<string>, now: int)
    requires user in users && users[user].currentDeviceId.Some?
    ensures UpsertOnStart(users, user, device, now)[user].currentDeviceId.Some?
  {
  }

  /** Every device id on record has the TYPE_NN form. */
  ghost predicate DevicesWellFormed(users: map<int, UserRow>) {
    forall u :: u in users && users[u].currentDeviceId.Some? ==> IsDeviceIdFormat(users[u].currentDeviceId.value)
  }

  /** `bot.start` stores only what `extractDeviceIdFromStart` accepted, so the table stays well formed. */
  lemma StartKeepsDevicesWellFormed(users: map<int, UserRow>, user: int, text: Option<string>, payload: Option<string>, now: int)
    requires DevicesWellFormed(users)
    ensures DevicesWellFormed(UpsertOnStart(users, user, ExtractDeviceIdFromStart(text, payload), now))
  {
  }
}
