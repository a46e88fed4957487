# P-Shik service credits, modelled in Dafny

P-Shik is a Telegram bot for fragrance-spray vending machines. When a machine fails
a customer, the bot issues a **service credit**: a six-digit code bound to the
customer's Telegram id and to one machine (a device id such as `BANYA_01`). The
machine redeems the code through an HTTP route. This project models that credit
protocol against the shared Postgres tables `credits`, `redemptions` and `users`,
and proves its properties.

The model:

- **Issuance** (`issueCreditForUser` and `POST /api/bot/issue-credit`). It revokes the
  active credit of the same (user, device). It then draws up to 15 random candidates
  until one is not held by an active credit, and inserts the new active credit.
- **Redemption** (`POST /api/device/redeem-credit`). The checks run in a fixed order:
  `bad_key`, `bad_request`, `not_found`, `wrong_device`, `not_active`, then `expired`
  or a consume. The consume is a compare-and-set on `status='active'` and answers
  `race` when it touches no row. Redemption is split into a read phase (`Lookup`) and
  a write phase (`Commit`). `Commit` acts on whatever state holds when it runs, so
  other requests may run between the two phases.
- **Code generation** (`genCode6`), with each `Math.random()` value passed in as a real
  number in [0, 1).
- **Device ids from `/start`** (`extractDeviceIdFromStart`), with the ECMAScript
  white-space set that `String.prototype.trim` removes (section 22.1.3.32 of
  ECMA-262).
- **The `/start` user upsert**, whose `COALESCE` keeps the previous device.
- **Compensation from the problem menu** (`handleCompensation` and the
  `CB_PROBLEM_*` actions).

Modules:

- `Text`: `trim`, `split(' ')` and joining.
- `StartCommand`: the device-id format and its extraction.
- `CodeGenerator`: `genCode6` and decimal digits.
- `Users`: `COALESCE` and the upsert.
- `Tables`: the rows, one function per SQL statement, and the invariant `Valid`. It
  combines the schema's constraints (serial ids, unique codes, redemptions that
  reference credits, `used_at` set exactly on used credits) with the protocol's own
  rule that a used credit has exactly one `success` redemption. The module also
  defines the allowed evolution of a state (`Evolves`).
- `Issuance`, `Redemption` and `Compensation`: the handlers as functions of the
  state.
- `Protocol`: end-to-end properties.
- `Store`: the handlers as methods that update the tables in place. Each method is
  proved equal to its function.

Inputs taken as parameters:

- the clock `now`, in milliseconds;
- the random draws;
- the configured device key, as an `Option<string>`.

The configuration object `src/config.ts:9-19` has no `deviceApiKey` property. So the
deployed key is `None` (`Redemption.ConfiguredDeviceKey`) and, as written, every
redemption answers `bad_key`. `Redemption.UnconfiguredKeyRefusesAll` proves this.
All other redemption lemmas take the key as a parameter.

Two quirks of the source are modelled as written:

- **The `if (!code)` guard cannot fire** (`src/server.ts:24` and `src/server.ts:184`).
  After the first iteration, `code` always holds a six-digit candidate. When all 15
  candidates collide, the loop keeps the last colliding code. The INSERT then
  violates `code TEXT UNIQUE`.
- **The collision check and the constraint look at different rows.** The check looks
  only at active codes, but `UNIQUE (code)` covers every row ever written
  (`src/migrate.ts:39`). So the INSERT can also fail on a code held by a used,
  expired or revoked credit. That failure comes after the revoke, which is not undone.
  The (user, device) pair is then left with no active credit, and the serial id is
  spent.

## Model

| member | source | states |
|---|---|---|
| Text.Trim | src/server.ts:39-41 | White space is the set `JsSpaces`, the characters `String.prototype.trim` removes. The result has no leading or trailing ECMAScript white space, and it is the input with white-space runs cut from both ends only. |
| Text.TrimOfTrimmed | src/server.ts:39-41 | Trimming a string without white space at its ends returns it unchanged. |
| Text.TrimIdempotent | src/server.ts:40-41 | Trimming twice is the same as trimming once, so the second `trim` on the payload changes nothing. |
| Text.TrimEmpty | src/server.ts:39-43 | A string trims to "" exactly when it consists only of white space. |
| Text.SplitOnSpace | src/server.ts:39 | `split(' ')` returns at least one piece, and no piece contains a space. |
| Text.JoinSplit | src/server.ts:39 | Joining the pieces of `split(' ')` with spaces gives back the original text. |
| Text.SplitJoin | src/server.ts:39 | Splitting the join of space-free pieces gives back exactly those pieces. |
| Text.SplitSpaceFree | src/server.ts:39 | Text without a space splits into itself alone. |
| Text.NonEmptyTrimmed | src/server.ts:39 | `.map(trim).filter(Boolean)` keeps at most as many pieces, each non-empty and trimmed. |
| Text.Words | src/server.ts:38-39 | Every word of the message is non-empty and trimmed. |
| StartCommand.IsDeviceIdFormat | src/server.ts:44 | No contract of its own: the test `^[A-Z]+_\d{2}$`. `StartCommand.DeviceIdFormatFromParts` and `StartCommand.DeviceIdFormatParts` prove it matches exactly that pattern, in both directions. |
| StartCommand.PayloadOf | src/server.ts:40-41 | A present payload becomes its `trim`, and a missing one becomes "". The result is trimmed, and it is "" exactly when there is no payload or it is all white space. |
| Text.NonEmptyTrimmedAppend | src/server.ts:39 | The filter works piece by piece: on two concatenated lists it gives the concatenation of their results, in order. |
| Text.NonEmptyTrimmedSingle | src/server.ts:39 | One piece is dropped when it is all white space, and kept trimmed otherwise. |
| Text.NonEmptyTrimmedKeeps | src/server.ts:39 | Pieces that are already non-empty and trimmed all survive, unchanged and in order. |
| Text.WordsOfJoin | src/server.ts:38-39 | Splitting a text made of non-empty, trimmed, space-free words joined by single spaces gives back exactly those words in order. |
| StartCommand.DeviceIdFormatFromParts | src/server.ts:44 | Upper-case letters, `_` and two digits make an id of the `^[A-Z]+_\d{2}$` form. |
| StartCommand.DeviceIdFormatParts | src/server.ts:44 | Every id of that form splits into non-empty upper-case letters, `_` and two digits. |
| StartCommand.ExtractDeviceIdFromStart | src/server.ts:36-46 | A returned id has the `^[A-Z]+_\d{2}$` form and is non-empty. |
| StartCommand.PayloadTakesPrecedence | src/server.ts:40-45 | A non-blank start payload decides alone: it is returned when it has the format, otherwise nothing is. |
| StartCommand.SecondWordWhenNoPayload | src/server.ts:38-45 | Without a payload, the second word of the text is returned when it has the format; with fewer than two words, nothing is. |
| StartCommand.ExtractedIdIsPattern | src/server.ts:43-45 | A returned id is one or more upper-case ASCII letters, then `_`, then two ASCII digits, and nothing else. |
| StartCommand.TypedStartBindsDevice | src/server.ts:37-45 | The typed message `/start <id>` with a well-formed id yields exactly that id. |
| StartCommand.LowerCasePayloadRefused | src/server.ts:44 | A payload starting with a lower-case letter is refused. |
| CodeGenerator.Candidate | src/server.ts:50 | `Math.floor(100000 + r * 900000)` lies in 100000..999999 for every draw in [0, 1). |
| CodeGenerator.Decimal | src/server.ts:50 | `toString()` of a non-negative integer is a non-empty string of decimal digits. |
| CodeGenerator.DecimalRoundTrip | src/server.ts:50 | Reading back the decimal form of a number gives that number. |
| CodeGenerator.DecimalLength | src/server.ts:50 | A number with k digits is written with exactly k characters. |
| CodeGenerator.DecimalNoLeadingZero | src/server.ts:50 | A positive number is written without a leading zero. |
| CodeGenerator.GenCode6 | src/server.ts:48-51 | The code has six digits, does not start with `0`, and denotes the candidate of the draw. |
| CodeGenerator.GenCode6Covers | src/server.ts:50 | Every six-digit code with a non-zero first digit is produced by some draw. |
| CodeGenerator.GenCode6SameExactly | src/server.ts:50 | Two draws give the same code exactly when they give the same candidate. |
| CodeGenerator.Code6Range | src/server.ts:50 | A six-digit code denotes a number in 100000..999999. |
| CodeGenerator.DigitsDetermineString | src/server.ts:50 | Two digit strings of equal length that denote the same number are equal. |
| Users.Coalesce | src/server.ts:328 | `COALESCE(a, b)` is NULL only when both are. It is `a` when `a` is not NULL, and `b` when `a` is NULL. |
| Users.UpsertOnStart | src/server.ts:324-330 | The upsert adds the user and leaves every other user's row alone. It sets `last_seen_at`. It keeps `first_seen_at` of a known user. It stores the new device, or the old one when the new one is NULL. |
| Users.UpsertNeverForgetsDevice | src/server.ts:328 | Once a user has a device on record, no later `/start` removes it. |
| Users.StartKeepsDevicesWellFormed | src/server.ts:319-330 | Since `/start` stores only extracted ids, every device id on record keeps the `TYPE_NN` form. |
| Tables.Valid | src/migrate.ts:37-56 | No contract of its own: the constraints the model keeps. Ids are positive, increase along the table and lie below the serial. Codes are unique, `used_at` is set exactly on used credits, and every redemption references a credit. A used credit has exactly one `success` row, and any other credit has none. `Tables.EmptyDbValid` and every `*Valid` lemma prove it is kept. |
| Tables.RowStep | src/migrate.ts:42 | No contract of its own: a credit row stays as it is or leaves `active` for another status, with only `status` and `used_at` changing. `Tables.TerminalRowsFrozen` proves its consequence. |
| Tables.CreditsEvolve | src/migrate.ts:37-47 | No contract of its own: no credit row is removed, and every existing row takes a `RowStep`. |
| Tables.Evolves | src/migrate.ts:37-56 | No contract of its own: the allowed change of the whole state. Credits evolve by `RowStep`, redemption rows are only appended, and the serial only grows. `Tables.EvolvesTransitive` and `Tables.TerminalRowsFrozen` state its properties. |
| Tables.CodeInUse | src/migrate.ts:39 | No contract of its own: some row of any status holds the code, which is what `UNIQUE (code)` checks. `Tables.InsertCredit` and `Tables.SameKeysCodeInUse` state its role. |
| Tables.InScope | src/server.ts:14 | No contract of its own: the `WHERE tg_user_id=$1 AND device_id=$2` of the revoke. `Tables.RevokeScope` and `Issuance.IssueScope` state its effect. |
| Tables.ActiveWithId | src/server.ts:222-229 | No contract of its own: the `WHERE id=$1 AND status='active'` of the guarded updates. `Tables.ActiveWithIdAt` proves it matches exactly an active row with that id. |
| Tables.SelectByCode | src/server.ts:209-214 | `SELECT ... WHERE code=$1 LIMIT 1` returns a row holding the code, and returns none exactly when no row holds it. |
| Tables.RowOfId | src/migrate.ts:38 | It returns a row with the id, and returns none exactly when no row has it. |
| Tables.SuccessCountAppend | src/migrate.ts:50-56 | Appending a redemption row adds one `success` to a credit's count exactly when the row is a success for that credit. |
| Tables.SuccessCountUnreferenced | src/migrate.ts:52 | A credit that no redemption row references has no `success` row. |
| Tables.EmptyDbValid | src/migrate.ts:37-56 | A freshly migrated database satisfies every constraint the model keeps. |
| Tables.SelectByCodeUnique | src/migrate.ts:39 | Under `code UNIQUE`, the row the SELECT by code finds is the only row with that code. |
| Tables.RowOfIdUnique | src/migrate.ts:38 | Under `SERIAL PRIMARY KEY`, a credit's id identifies exactly its row. |
| Tables.ActiveWithIdAt | src/server.ts:227-232 | The guarded update `WHERE id=$1 AND status='active'` matches a row exactly when that credit row is active. |
| Tables.EvolvesTransitive | src/migrate.ts:42 | Two legal evolutions in sequence make a legal evolution. |
| Tables.TerminalRowsFrozen | src/migrate.ts:42 | A credit that is `used`, `expired` or `revoked` never changes again through any evolution. |
| Tables.SameKeysCodeInUse | src/server.ts:21 | Tables that agree on ids and codes hold the same codes. A code held by an active credit is held by some row. |
| Tables.RevokeScopeSameKeys | src/server.ts:12-16 | The revoke changes no credit's id or code. |
| Tables.RevokeScopeValid | src/server.ts:12-16 | The revoke keeps every constraint and is a legal evolution. `Tables.RevokeScope` states what it does to each row. |
| Tables.ExpireValid | src/server.ts:222 | The guarded `expired` update keeps every constraint and is a legal evolution. `Tables.ExpireIfActive` states what it does to each row. |
| Tables.AppendDeniedValid | src/server.ts:223 | Writing a `denied` row for an existing credit keeps every constraint and is a legal evolution. `Tables.AppendRedemption` states that exactly one row is appended. |
| Tables.ConsumeValid | src/server.ts:227-239 | Consuming an active credit and writing its `success` row keeps every constraint, including one success per used credit. |
| Tables.InsertValid | src/server.ts:26-30 | The INSERT of a credit, refused or not, keeps every constraint and is a legal evolution. `Tables.InsertCredit` states the appended row and the advanced serial. |
| Tables.HasActiveCode | src/server.ts:21 | No contract of its own: the query `WHERE code=$1 AND status='active'`. `Tables.SameKeysCodeInUse` proves that a code it finds is held by some row, and `Issuance.StopAttemptFrom` uses it as the loop's stopping test. |
| Tables.RevokeScope | src/server.ts:12-16 | The row count is kept. Each row stays or goes from `active` to `revoked`. Rows of other (user, device) pairs are untouched, and no row of this pair is left active. |
| Tables.ExpireIfActive | src/server.ts:222 | The row count is kept. Each row stays or goes from `active` to `expired`. Rows with other ids are untouched, and no row with the id is left active. |
| Tables.ConsumeIfActive | src/server.ts:227-232 | The row count is kept. Each row stays or goes from `active` to `used` with `used_at = now`. Rows with other ids are untouched, and no row with the id is left active. |
| Tables.InsertCredit | src/server.ts:26-30 | The serial advances in every case. The INSERT succeeds exactly when no row holds the code. It then appends an active credit with the next id, the given fields and no `used_at`. Otherwise it fails with the unique violation and leaves the credits alone. Redemptions and users never change. |
| Tables.AppendRedemption | src/server.ts:223-239 | Exactly one row is appended to `redemptions`, carrying the credit id, device, result and time. Credits, users and the serial do not change. |
| Issuance.TruncateTime | src/server.ts:9 | The integer lies within one of the time it truncates, toward zero: at or below a non-negative time, at or above a negative one. |
| Issuance.ExpiryOfWholeDays | src/server.ts:9 | For a whole number of days, the expiry is exactly that many days of milliseconds after `now`. |
| Issuance.PickCode | src/server.ts:18-23 | The code the retry loop ends with is a six-digit code. |
| Issuance.FinishIssue | src/server.ts:24-32 | The guard answers `code_gen_failed` exactly for the empty code, and then writes nothing. A success returns the code with the given expiry. Redemptions and users never change. |
| Issuance.Issue | src/server.ts:8-33 | Issuance never fails with `code_gen_failed`. On success the code has six digits and the expiry is `ExpiryOf(now, days)`. The serial advances, and redemptions and users do not change. |
| Issuance.ReasonOrDefault | src/server.ts:164 | The reason is never empty, and a non-empty reason is kept. |
| Issuance.DaysOrDefault | src/server.ts:165 | No contract of its own: a missing or falsy `days` becomes 7. `Issuance.IssueRouteDefaults` states the effect on the issued credit. |
| Issuance.IssueBodyRejected | src/server.ts:167 | No contract of its own: the refusal test. `Issuance.IssueRouteBadRequest` and `Issuance.IssueRoute` state that it decides `bad_request`. |
| Issuance.IssueRoute | src/server.ts:160-193 | The route answers `bad_request` exactly when the body is refused. It never answers `code_gen_failed`, and it leaves the users alone. |
| Issuance.ExpiryOf | src/server.ts:9 | No contract of its own: `now + days*86400000` truncated to whole milliseconds. `Issuance.TruncateTime` bounds the truncation, and `Issuance.ExpiryOfWholeDays` gives the exact value for whole days. |
| Issuance.StopAttempt | src/server.ts:18-23 | No contract of its own: the attempt at which the loop exits, counting from the first. `Issuance.StopAttemptFrom` states that every earlier candidate is held by an active credit, and that the exit candidate is free unless it is the fifteenth. |
| Issuance.StopAttemptFrom | src/server.ts:18-23 | The loop stops at the first attempt whose candidate no active credit holds, or at the fifteenth. |
| Issuance.PickCodeIsCode6 | src/server.ts:18-24 | The code the loop ends with is a six-digit code, and so is never empty. |
| Issuance.PickCodeFirstFree | src/server.ts:18-23 | When some candidate is free, the loop ends with the first free one. |
| Issuance.PickCodeExhausted | src/server.ts:18-23 | When all 15 candidates collide, the loop ends holding the last one, which an active credit holds. |
| Issuance.StopAttemptUsesFifteenDraws | src/server.ts:19 | Only the first 15 draws affect the outcome. |
| Issuance.IssueValid | src/server.ts:8-33 | Issuance keeps every constraint and is a legal evolution of the tables. |
| Issuance.CodeGenFailedUnreachable | src/server.ts:24 | Issuance never throws `code_gen_failed`. |
| Issuance.IssueScope | src/server.ts:12-16 | Credits of other (user, device) pairs are untouched. Active credits of this pair become `revoked`, and its other credits are untouched. Redemptions and users do not change. |
| Issuance.IssueSuccess | src/server.ts:8-33 | Issuance succeeds exactly when no row of any status holds the picked code. On success it returns the code and `ExpiryOf(now, days)`, which is `now + days*86400000` truncated toward zero, and appends one active credit with that code, user, device, reason and expiry. On failure the error is the unique violation and no row is added. The serial advances in both cases. |
| Issuance.IssueLeavesOneActive | src/server.ts:11-30 | After a successful issuance, the new credit is the only active one of its (user, device). |
| Issuance.IssueFailureLeavesNoActive | src/server.ts:12-30 | After a failed INSERT, the (user, device) pair has no active credit. |
| Issuance.ExhaustedIssueFails | src/server.ts:18-30 | When all 15 candidates collide with active codes, issuance fails with the unique violation. |
| Issuance.IssueRouteBadRequest | src/server.ts:161-167 | The route answers `bad_request` exactly for a NaN or zero user id or an empty device id, and then changes nothing. |
| Issuance.IssueRouteState | src/server.ts:161-192 | For an accepted body, the route leaves exactly the tables that issuance leaves with the defaulted reason and days. |
| Issuance.IssueRouteDefaults | src/server.ts:161-192 | An accepted body issues with reason `problem` and 7 days when those are missing, and otherwise with the given reason and the given (possibly fractional) number of days. The route never answers `code_gen_failed`. It reports issuance's code and expiry. |
| Issuance.IssueRouteValid | src/server.ts:160-193 | The route keeps every constraint, is a legal evolution, and leaves the users alone. |
| Redemption.ReasonTag | src/server.ts:201-237 | No contract of its own: the `reason` string of each denial. `Redemption.ReasonTagsDistinct` proves distinct reasons send distinct strings. With the key `ConfiguredDeviceKey` undefined (`src/config.ts:9-19`), `Redemption.UnconfiguredKeyRefusesAll` proves every reply is `bad_key`. |
| Redemption.HttpStatus | src/server.ts:200-240 | The status is 401 exactly for `bad_key`, 400 exactly for `bad_request`, and 200 for every other reply. |
| Redemption.ReasonTagsDistinct | src/server.ts:201-237 | Different denial reasons send different error tags. |
| Redemption.Commit | src/server.ts:220-240 | A denial from the read phase writes nothing. Every other write appends exactly one redemption row for the credit and device, a `success` row exactly when the reply is `OK`. Expiry answers `expired`, and a consume answers `OK` or `race`. Users and the serial do not change. |
| Redemption.Redeem | src/server.ts:199-241 | The reply is `bad_key` exactly when the configured key is missing or differs, and then nothing changes. Users and the serial never change. |
| Redemption.Lookup | src/server.ts:199-221 | A read that does not deny names an existing credit row. |
| Redemption.GuardedUpdatesIdle | src/server.ts:222-232 | A guarded update that matches no active row changes nothing. |
| Redemption.CommittableLater | src/server.ts:209-232 | A row the read phase found still exists in every later state. |
| Redemption.LookupOrder | src/server.ts:200-221 | Each outcome of the read phase happens exactly when every earlier check passed and its own check failed. The order is `bad_key`, `bad_request`, `not_found`, `wrong_device`, `not_active`, then expire (strictly after the expiry) or consume. |
| Redemption.UnconfiguredKeyRefusesAll | src/server.ts:200-201 | With the key missing from the configuration, every request gets `bad_key` and nothing changes. |
| Redemption.EarlyDenialsChangeNothing | src/server.ts:200-218 | The reply is one of the early denials exactly when no table changes. |
| Redemption.RedeemActiveCredit | src/server.ts:220-240 | An active credit on its own device is consumed when `now <= expires_at`: `used`, `used_at = now`, one `success` row, `OK`. Strictly after expiry it becomes `expired`, with one `denied` row and `expired`. No other row changes. |
| Redemption.SequentialNeverRaces | src/server.ts:227-237 | A redemption with nothing running in between never answers `race`. |
| Redemption.CommitConsume | src/server.ts:227-240 | At write time, a still-active credit is consumed with a `success` row and `OK`. Otherwise no credit changes, one `denied` row is written, and the reply is `race`. |
| Redemption.CommitValid | src/server.ts:220-240 | Every write phase keeps every constraint, is a legal evolution, and leaves the users alone. |
| Redemption.CommitExpire | src/server.ts:220-224 | At write time the expire branch applies the guarded `expired` update, appends one `denied` row and answers `expired`. A credit that is no longer active, for example one consumed in between, is left as it is. |
| Redemption.RedeemValid | src/server.ts:199-241 | A redemption keeps every constraint, is a legal evolution, and leaves the users alone. |
| Redemption.OkIsARecordedSuccess | src/server.ts:234-240 | A write phase adds one `success` row for its credit exactly when it answers `OK`, and adds none for any other credit. |
| Redemption.AtMostOneSuccess | src/server.ts:227-240 | In every valid state, each credit has at most one `success` row. |
| Redemption.NoSecondOk | src/server.ts:227-237 | After `OK` for a credit, no write phase on any later valid state answers `OK` for it again. |
| Redemption.RepeatAfterOkIsNotActive | src/server.ts:218 | Presenting a code again after `OK` answers `not_active`. |
| Redemption.RepeatAfterExpiredIsNotActive | src/server.ts:218-224 | Presenting a code again after `expired` answers `not_active`. |
| Redemption.ConsumeTwiceOneWinner | src/server.ts:227-237 | Two guarded consumes of one active credit, in sequence: the first answers `OK`, the second `race`. |
| Redemption.ConcurrentPairOneWinner | src/server.ts:209-237 | Two redemptions that both read an active, unexpired credit before either writes: the first writer gets `OK`, the second `race`. |
| Compensation.HasDevice | src/server.ts:264 | No contract of its own: the user's row has a non-empty device. `Compensation.CompensationDevice` proves that the device is then the recorded one, and that otherwise it is the placeholder `UnknownDevice` (`UNKNOWN`). |
| Compensation.NeedsScan | src/server.ts:265 | No contract of its own: the gate on the recorded device. `Compensation.CompensationGate` and `Compensation.AskToScanIffNoDevice` state when it holds. |
| Compensation.Compensate | src/server.ts:261-285 | Asking to scan writes nothing. Compensation never fails with `code_gen_failed`, and it leaves the users alone. |
| Compensation.HandleProblem | src/server.ts:287-303 | The reply is the "write to us" message exactly for "Other", and then nothing is written. The users are left alone. |
| Compensation.CompensationDevice | src/server.ts:263-264 | The device is the one recorded for the user when non-empty, and `UNKNOWN` otherwise. It is never empty. |
| Compensation.UnknownIsNotADeviceId | src/server.ts:264 | `UNKNOWN` does not have the device-id form that `/start` accepts. |
| Compensation.CompensationGate | src/server.ts:261-269 | The user is asked to scan exactly when no device other than `UNKNOWN` is recorded, and then nothing is written. Otherwise the outcome and the new state are those of issuing for the recorded device. |
| Compensation.AskToScanIffNoDevice | src/server.ts:263-267 | When every recorded device came from `/start`, the user is asked to scan exactly when no device is recorded. |
| Compensation.CompensateValid | src/server.ts:261-285 | Compensation never fails with `code_gen_failed`. It keeps every constraint, is a legal evolution, and leaves the users alone. |
| Compensation.CompensationTerms | src/server.ts:287-303 | "Other" has no compensation. The other buttons use reason `problem`, with 30 days for a failed spray and 7 days for a weak spray or an empty cartridge. |
| Compensation.ProblemTerms | src/server.ts:287-303 | "Other" exactly writes nothing. A compensated button expires 30 or 7 days after `now` and appends the active credit for the recorded device with reason `problem`. |
| Compensation.HandleProblemValid | src/server.ts:287-303 | Every problem button keeps every constraint, is a legal evolution, and leaves the users alone. |
| Protocol.IssuedCodeRedeems | src/server.ts:8-33 | A freshly issued code, on its own device with the configured key, answers `OK` until its expiry and `expired` after it. On another device it answers `wrong_device`. |
| Protocol.ReissueRetiresOldCode | src/server.ts:11-16 | After any new issuance for the same (user, device), the previous active code answers `not_active`. |
| Store.DrawCode | src/server.ts:18-23 | The retry loop ends with the code the stopping attempt drew, and that code has six digits. |
| Store.Store.constructor | src/migrate.ts:37-56 | A new store is the empty, valid database. |
| Store.Store.Start | src/server.ts:319-330 | The users table becomes the upsert of the extracted device, and nothing else changes. The tables stay valid. |
| Store.Store.IssueCreditForUser | src/server.ts:8-33 | The reply and the new tables are those of `Issuance.Issue`. |
| Store.Store.InsertIssued | src/server.ts:24-32 | The guard and the INSERT leave the result and tables of `Issuance.FinishIssue`. |
| Store.Store.IssueCreditRoute | src/server.ts:160-193 | The reply and the new tables are those of `Issuance.IssueRoute`. The tables stay valid and evolve legally. |
| Store.Store.HandleCompensation | src/server.ts:261-285 | The outcome and the new tables are those of `Compensation.Compensate`. The tables stay valid and evolve legally. |
| Store.Store.HandleProblemAction | src/server.ts:287-303 | The reply and the new tables are those of `Compensation.HandleProblem`. The tables stay valid and evolve legally. |
| Store.Store.LookupCredit | src/server.ts:199-221 | The decision is `Redemption.Lookup`. It is `bad_key` exactly when the key differs. |
| Store.Store.CommitRedeem | src/server.ts:220-240 | The reply and the new tables are those of `Redemption.Commit` on the tables as they are when it runs. |
| Store.Store.RedeemCredit | src/server.ts:199-241 | The reply and the new tables are those of `Redemption.Redeem`. The tables stay valid and evolve legally. |

## Left out

- The Telegram webhook routes and the secret-token check (`src/server.ts:62-140`): transport wiring. `/telegram/webhook` (`src/server.ts:62-65`) hands updates to Telegraf. The second route, `/webhook/telegram` (`src/server.ts:73-140`), has its own `/start` branch (`src/server.ts:87-105`), which stores `parts[1] || null` without validation and without `COALESCE`. Once that branch handles an update, a device on record may lack the `TYPE_NN` form, and `Users.DevicesWellFormed` no longer holds. That predicate is part of `Store.Store.Valid` and a premise of `Compensation.AskToScanIffNoDevice`. As deployed, `setWebhook` (`src/server.ts:311-313`) registers `/telegram/webhook`, so every `/start` goes through the Telegraf handler that this model covers.
- Menus, keyboards, message texts and card rendering (`src/server.ts:245-258` and the rest of the bot's actions): Telegram calls with literal strings.
- `src/telegram.ts` and `src/db.ts`: an HTTP wrapper and a connection pool, with no protocol logic.
- `src/migrate.ts` and `src/migrate_cli.ts` as programs: the DDL is used only as the shape of the rows and the constraints. The `devices`, `user_state` and `feedback` tables are not modelled.
- `Math.random` is a real number in [0, 1) passed in per attempt. Floating-point rounding of `100000 + r * 900000` is not modelled; exact reals are used.
- `Date.now()`, `new Date(...)` and the ISO round trip through `TIMESTAMPTZ`: time is one integer `now` in milliseconds. The database's `now()` for `used_at` and `redeemed_at` is taken to be the same `now`. `toLocaleDateString` is not modelled.
- A `days` value that makes the expiry NaN or outside the range of `Date`: not modelled. `days` is an exact real, so a fractional number of days is modelled. The expiry is then truncated toward zero to whole milliseconds, as `new Date(t)` does, but it is never bounded.
- Telegram user ids as JavaScript numbers and `BIGINT`: they are unbounded integers. A non-integer `Number(body.tg_user_id)` is not modelled.
- JSON body fields that are not strings or numbers: the route's body is taken after conversion, with "" for a missing or falsy string field.
- Concurrency during issuance: only redemption's read/write split is modelled. `Redemption.NoSecondOk` quantifies over every later valid state. `Redemption.ConcurrentPairOneWinner` has both reads look at one state, and the second write runs on the state the first write left.
- Redemption.Commit: each guarded UPDATE and the redemption INSERT that follows it (`src/server.ts:222-223`, `src/server.ts:227-239`) form one atomic step. No other request can run between the two.
- The serial id of a `redemptions` row is its position in the sequence.
- Store.Store.IssueCreditRoute: the route repeats the issuance statements inline. The model runs them through `Store.Store.IssueCreditForUser`, whose steps are the same except that the unreachable guard answers `code_gen_failed` with HTTP 500 instead of throwing.
- Store.Store.IssueCreditForUser and Store.Store.CommitRedeem do not promise `Valid` themselves. The handlers that call them do, through `Issuance.IssueValid` and `Redemption.CommitValid`.
- Failures of the database connection, and errors thrown into Telegraf or Fastify, other than the unique violation of the INSERT: not modelled.
