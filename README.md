# Locker door access and assignment, modelled in Dafny

This project models the server core of a smart-locker system. HTTP handlers
assign locker doors to users, drive the doors (open, close, lock, unlock),
end sessions and let users pick up items. They also check the credentials a
user presents: an access code, an NFC card UID, or a face-template hash.

The relational store is replaced by in-memory tables, the fields of one
`Store.Db` object:
- `doors`: a map from door id to status, assigned user, assignment time and last opening time.
- `sessions`: a sequence of rows.
- `events`: the append-only door event log.
- `credentials`: the code and card rows.
- `biometrics`: face records keyed by user.
- `users` and `settings`: read-only client tables.

Each handler that writes to these tables is a method that changes them and
returns a `Reply`, which is either a payload or an `ErrorKind`. The read-only
handlers are modelled differently: `CardReader.VerifyCard` and
`Face.VerifyFace` are functions of the tables, and
`LockerSelectedDoor.ValidateAccessCode` is a method that changes nothing. `Store.HttpStatus` maps each
error kind to the status code it is sent with.

These inputs are parameters of the model:
- The clock is a `Time` value.
- bcrypt's compare and SHA-256 are the two function fields of a `Crypto` value.
- Store calls that fail are named in a `failing` set. The model can then say
  which failures are fatal (500, with no undoing of earlier writes) and which
  are swallowed.
- The door chosen by the auto-assignment stored procedure is an `Option` of a door id.

A missing or empty request field is the empty string.

The modules follow the controller files:
- `Store`: tables, query filters, `select`/`delete`, replies.
- `AccessCode`: the shared dual-path code comparison.
- `Actions`: the four door actions.
- `LockerSelectedDoor`: assign, code lookup, session end, pickup.
- `LockerDoor`: plain door control.
- `LockerAuto`: door control on an auto-selected door.
- `CardReader`: card credentials.
- `Face`: face credentials.

The model has two further properties:
- The invariant `LockerSelectedDoor.Coherent` is kept by assignment, by session end when
  its session update succeeds, and by pickup:
  - a door is assigned iff it is occupied, locked or overdue;
  - every active session's door exists, is not available and is held by that session's user;
  - no door has two active sessions.

  The door-control paths do not keep it, and neither does a session end whose session
  update fails (see Findings).
- `CardReader.CardHashesUnique` (no two card rows share a hash) is kept by card registration
  when its delete succeeds (`CardDelete` not in `failing`). A failed delete is ignored and can
  leave two rows with one hash (see Findings).

Where the system's documentation and its code differ, the model follows the code:
- The documentation lists "door not found" among the errors of door control.
  `controlLockerDoor` never reads the door. An update of an unknown id changes no row,
  and the event is still appended.
- The documentation treats `occupied` and `in_use` as one state. The code writes
  `in_use` on the plain control path and `occupied` everywhere else, so the model
  keeps them as two distinct statuses.
- The documentation lists access-code errors among the errors of door control.
  `controlLockerDoor` checks no credential at all; only the auto-assign path checks the code.
- The documentation says assignment keeps one active session per user as well as one user
  per door. `assignLockerToUser` checks only the door's status and the client's settings and
  never reads the user's other sessions or doors, so one user can hold several doors, each
  with an active session. `LockerSelectedDoor.Coherent` therefore promises one active session
  per door only, and `LockerSelectedDoor.AssignAllowsTwoDoorsPerUser` shows a user holding two.

## Model

| member | source | states |
|---|---|---|
| Store.HttpStatus | src/controllers/LockerSelectedDoorController.js:4-507 | every error kind is sent with a 4xx or 5xx status, and 500 exactly for an internal failure |
| Store.Select | src/controllers/LockerSelectedDoorController.js:80-84 | a filtered query returns exactly the rows that match every equality filter |
| Store.SelectHead | src/controllers/LockerSelectedDoorController.js:90 | the first row a query returns is the first matching row of the table, the row the handlers read as `credentials[0]` |
| Store.SelectCounts | src/controllers/CardReaderController.js:52-57 | a query returns each matching row exactly as often as the table holds it, and no other row |
| Store.SelectNone | src/controllers/LockerSelectedDoorController.js:86-88 | a query no row matches returns nothing |
| Store.Delete | src/controllers/CardReaderController.js:69-73 | a filtered delete removes every matching row and keeps every other row with its multiplicity |
| AccessCode.CodeMatches | src/controllers/LockerSelectedDoorController.js:97-104 | a supplied code matches a row prefixed `$2b$` or `$2a$` iff bcrypt accepts it, and any other row iff it equals the stored text exactly |
| AccessCode.Classify | src/controllers/LockerSelectedDoorController.js:98-104 | a stored code is a bcrypt hash iff it starts with `$2b$` or `$2a$`; classifying keeps the stored text |
| AccessCode.ComparisonPaths | src/controllers/LockerSelectedDoorController.js:98-104 | a legacy row never consults bcrypt, so any two bcrypt implementations agree on it; a hashed row consults bcrypt only on the supplied code and the stored hash, and SHA-256 is never consulted |
| AccessCode.RequiredCodeCheck | src/controllers/LockerSelectedDoorController.js:74-109 | no code gives 401 (`AccessCodeRequired`); no code row gives 403 `NoAccessCode`; an inactive first row gives 403 `AccessCodeInactive` before any comparison; an active first row that does not match gives 403 `InvalidAccessCode`; the check passes iff the first row is active and matches; each outcome is stated as an iff |
| AccessCode.OptionalCheckIsWeaker | src/controllers/LockerSelectedDoorController.js:298-323 | the optional check refuses only what the required check refuses as a mismatch; it passes with no code or no row; with an active first row, it refuses exactly when the required check refuses |
| Actions.ParseAction | src/controllers/lockerDoorController.js:9-12 | exactly `opened`, `closed`, `locked` and `unlocked` are accepted, and each is read back to its own name |
| Actions.ParseActionName | src/controllers/LockerAutoController.js:8-11 | reading an action's name gives the action back |
| LockerSelectedDoor.AssignedDoor | src/controllers/LockerSelectedDoorController.js:112-122 | an assigned door is occupied, held by the user since now, and assignment-consistent; the client and the last opening time are kept |
| LockerSelectedDoor.ReleasedDoor | src/controllers/LockerSelectedDoorController.js:326-337 | an ended session leaves the door available, with no assignment, opened now, and assignment-consistent |
| LockerSelectedDoor.TouchedDoor | src/controllers/LockerSelectedDoorController.js:460-470 | a pickup moves only the last opening time; status and assignment are kept, and so is consistency |
| LockerSelectedDoor.CompleteSessions | src/controllers/LockerSelectedDoorController.js:340-354 | after session end, no active session of (door, user) remains; each one becomes completed, with `end_time` and `actual_end_time` both now and door, user and start kept; every other row is unchanged |
| LockerSelectedDoor.AssignKeepsCoherent | src/controllers/LockerSelectedDoorController.js:112-135 | assigning an available door keeps the invariant, with or without the new active session |
| LockerSelectedDoor.EndSessionKeepsCoherent | src/controllers/LockerSelectedDoorController.js:326-354 | ending the holder's session keeps the invariant when the session update succeeds |
| LockerSelectedDoor.EndSessionIgnoredUpdateBreaksCoherent | src/controllers/LockerSelectedDoorController.js:326-354 | when the ignored session update fails, the released door keeps an active session and the invariant breaks; assigning the door again then leaves two active sessions on it |
| LockerSelectedDoor.PickupKeepsCoherent | src/controllers/LockerSelectedDoorController.js:460-470 | a pickup keeps the invariant |
| LockerSelectedDoor.AssignRefusalOrder | src/controllers/LockerSelectedDoorController.js:27-52 | the contract of the guard function `AssignRefusal`: the guards refuse, in order, a door that is not available, then a client with no settings, then a client that disallows assignment; the code gate equals the required check; a passing request has an available door with assignment allowed |
| LockerSelectedDoor.AssignAllowsTwoDoorsPerUser | src/controllers/LockerSelectedDoorController.js:17-52 | assigning two free doors to the same user passes every guard both times, and the store stays coherent with the user holding both doors and two active sessions |
| LockerSelectedDoor.AssignLockerToUser | src/controllers/LockerSelectedDoorController.js:4-193 | a refusal changes nothing. Otherwise the door update, session insert and `assigned` event are fatal in turn, keeping earlier writes. On success there is one new active session, then events `assigned` with `source` and optionally `opened` with `source + "_initial_access"`; a failure of the latter is swallowed |
| LockerSelectedDoor.DirectMatch | src/controllers/LockerSelectedDoorController.js:205-210 | the single-row lookup returns a row iff exactly one code row stores the code, and then it returns that row |
| LockerSelectedDoor.ValidateAccessCode | src/controllers/LockerSelectedDoorController.js:196-246 | no code gives 400; an active direct match returns its user; otherwise the reply is the user of the first active code row in scan order that bcrypt accepts, or 403 when there is none, and a failed scan query gives 500 |
| LockerSelectedDoor.OwnerRefusalOrder | src/controllers/LockerSelectedDoorController.js:271-282 | the contract of the guard function `OwnerRefusal`: a caller who is not the assigned user gets 403; with the right caller, a door that is neither occupied nor overdue gets 400; a passing request is the holder of a held door |
| LockerSelectedDoor.EndLockerSession | src/controllers/LockerSelectedDoorController.js:248-391 | a refusal or a failed door update changes nothing. Otherwise the door is released, the caller's active sessions on it are completed, and an `opened` event with `source + "_end_session"` is appended; the last two are best effort |
| LockerSelectedDoor.PickupItem | src/controllers/LockerSelectedDoorController.js:393-507 | a refusal changes nothing. Otherwise the reply is 200, sessions are untouched, the door gets only a new last opening time, and an `opened` event with `source + "_pickup"` is appended; both writes are best effort |
| LockerSelectedDoor.AssignmentLifecycle | src/controllers/LockerSelectedDoorController.js:27-31 | on a fresh store: assign to user 1 succeeds, assign to user 2 is refused as unavailable, user 1 ends the session, assign to user 2 succeeds; the door ends held by user 2 and the log holds the five events in order |
| LockerDoor.ControlStatus | src/controllers/lockerDoorController.js:15-19 | on the plain control path `opened` gives `in_use` and `locked` gives `locked`; only `locked` leaves a door in a held status, and `closed` and `unlocked` exactly leave it available |
| LockerDoor.ControlledDoor | src/controllers/lockerDoorController.js:15-28 | the new status depends on the action alone; the last opening time moves only on `opened`; the assignment is never touched |
| LockerDoor.ControlBreaksAssignmentConsistency | src/controllers/lockerDoorController.js:21-28 | closing a held door leaves it available but still assigned, and locking a free door leaves it locked and unassigned |
| LockerDoor.ControlLockerDoor | src/controllers/lockerDoorController.js:3-56 | an unknown action gives 400 with no write; otherwise the door row, if any, is updated whatever its prior status; one event carrying the action and `source` is appended; the reply is the computed status; either write failing gives 500 and keeps the writes before it |
| LockerAuto.StatusTablesDisagreeOnOpen | src/controllers/LockerAutoController.js:117-121 | the two action tables agree except on `opened`, which gives `occupied` here and `in_use` on the plain path |
| LockerAuto.AutoStatus | src/controllers/LockerAutoController.js:117-121 | on the auto-assign path `opened` gives `occupied` and `locked` gives `locked`; exactly those two leave a door in a held status, and `closed` and `unlocked` exactly leave it available |
| LockerAuto.AutoControlledDoor | src/controllers/LockerAutoController.js:124-131 | the last opening time becomes now on `opened` and is cleared otherwise; the assignment is kept |
| LockerAuto.AutoRefusalOrder | src/controllers/LockerAutoController.js:8-114 | the contract of the guard function `AutoRefusal`: an invalid action is refused before anything else; then, in order, an unknown user (404), an inactive user (403) and a client with no settings (404); with no code required, a failed door selection gives 400; with a code required and the earlier guards passed, a refusal of the required check is the reply, and a request that passes every guard passed that check; a passing request has a chosen door that exists and an active user |
| LockerAuto.ControlLockerDoorAutoAssign | src/controllers/LockerAutoController.js:4-170 | a refusal (action, user, activity, settings, code, selection failure, missing door) changes nothing. Otherwise the chosen door is updated and one event with the action is appended, with no session created; either write failing gives 500 and keeps the writes before it |
| CardReader.TrimStart | src/controllers/CardReaderController.js:6 | leading white space is removed: the result is a suffix, everything cut is white space, and the result does not start with white space |
| CardReader.TrimEnd | src/controllers/CardReaderController.js:6 | trailing white space is removed: the result is a prefix, everything cut is white space, and the result does not end with white space |
| CardReader.LowerCharClasses | src/controllers/CardReaderController.js:6 | lower-casing keeps white space and maps hexadecimal digits onto the lower-case ones |
| CardReader.TrimStartSkipsWhitespace | src/controllers/CardReaderController.js:6 | leading white space never reaches what the left trim keeps |
| CardReader.TrimEndSkipsWhitespace | src/controllers/CardReaderController.js:6 | trailing white space never reaches what the right trim keeps |
| CardReader.TrimAppendWhitespace | src/controllers/CardReaderController.js:6 | appended white space does not change the trimmed string |
| CardReader.TrimIgnoresSurroundingWhitespace | src/controllers/CardReaderController.js:14-16 | surrounding a UID with white space leaves its trim unchanged |
| CardReader.LowerTrimStart | src/controllers/CardReaderController.js:6 | lower-casing commutes with the left trim |
| CardReader.LowerTrimEnd | src/controllers/CardReaderController.js:6 | lower-casing commutes with the right trim |
| CardReader.LowerTrimCommute | src/controllers/CardReaderController.js:6 | lower-casing and trimming commute |
| CardReader.HexUpToCase | src/controllers/CardReaderController.js:15 | strings equal up to letter case have the same length and the same hex-digit status |
| CardReader.CardUidVariants | src/controllers/CardReaderController.js:6-16 | UIDs differing only in letter case and surrounding white space are equally valid and yield the same hash |
| CardReader.IsValidCardUid | src/controllers/CardReaderController.js:14-16 | a UID is valid iff its trimmed, lower-cased form is 4 to 20 lower-case hex digits |
| CardReader.NormalizedUid | src/controllers/CardReaderController.js:6-8 | the digest input is the trimmed UID with each ASCII upper-case letter replaced by its lower-case letter and every other character kept; so it has no upper-case letter, no white space at either end, and a lower-case hex digit exactly where the trimmed UID has a hex digit |
| CardReader.HashCardUid | src/controllers/CardReaderController.js:6-8 | the digest of a valid UID is SHA-256 of some string of 4 to 20 lower-case hex digits |
| CardReader.ValidUidNormalizesToLowerHex | src/controllers/CardReaderController.js:6-16 | a valid UID is hashed from 4 to 20 lower-case hex digits |
| CardReader.RegisterCard | src/controllers/CardReaderController.js:22-110 | the guard function `RegisterRefusal` has its contract here: an invalid UID gives 400 and an unknown user 404. A failed conflict lookup or several rows with the hash give 500; one row of another user gives 409; all refusals change nothing. Otherwise the user's card rows are deleted (a failed delete is ignored) and one active row with the hash is inserted; a failed insert gives 500 after the delete |
| CardReader.SelectAppend | src/controllers/CardReaderController.js:76-87 | a query over the table extended by an insert is the query over the old rows followed by the query over the new ones |
| CardReader.RegisterLeavesOneCard | src/controllers/CardReaderController.js:69-85 | after a registration whose delete succeeds the user has exactly one card row, active with the new hash; every row that is not that user's card keeps its multiplicity |
| CardReader.DeleteShrinksSelect | src/controllers/CardReaderController.js:69-73 | a delete never adds rows to what a query returns |
| CardReader.RegisterKeepsCardHashesUnique | src/controllers/CardReaderController.js:52-87 | a registration that passed its guards keeps card hashes unique when its delete succeeds |
| CardReader.ReplaceKeepsHolderCount | src/controllers/CardReaderController.js:69-87 | when every holder of the new hash was the user's, replacing the user's card leaves at most one holder of each hash |
| CardReader.HoldersAreTheUser | src/controllers/CardReaderController.js:52-66 | once the conflict check passes, every card row holding the hash belongs to the registering user |
| CardReader.DeleteMembers | src/controllers/CardReaderController.js:69-73 | a row left by the delete was in the table and does not match the delete's filters |
| CardReader.VerifyCard | src/controllers/CardReaderController.js:116-182 | an invalid UID gives 400; a failed card lookup or several rows with the hash give 500; 404 iff the lookup succeeds and no card row holds the hash; one inactive row gives 403; one active row whose user is missing or inactive gives 404; one active row of an active user gives that user, and every success names such a user |
| CardReader.RegisterThenVerify | src/controllers/CardReaderController.js:69-175 | after a registration to an active user whose delete succeeds, a verification whose card lookup succeeds gives that user for the same UID and for any case or white-space variant of it |
| CardReader.RegisterCardAsWritten | src/controllers/CardReaderController.js:38-49 | as written, every request is refused, and every valid UID is refused as an unknown user |
| CardReader.VerifyCardAsWritten | src/controllers/CardReaderController.js:131-152 | as written, every request is refused: an invalid UID gives 400; with a valid UID, a failed lookup or several rows with the hash give 500, and otherwise the UID is always reported as not registered |
| CardReader.SampleUidIsValid | src/controllers/CardReaderController.js:14-16 | `A1B2C3D4` is a valid UID |
| CardReader.RegisterCardAsWrittenRefusesKnownUser | src/controllers/CardReaderController.js:38-49 | an existing user registering any valid UID, such as `A1B2C3D4`, is refused as written but passes every guard when the row is read |
| CardReader.RegisterWithFailedDeleteBreaksVerify | src/controllers/CardReaderController.js:69-87 | with the user lookup reading `data`, re-registering a registered card, for any valid UID, while the delete fails passes every guard, leaves two rows with the hash, and turns the card's verification from the user into 500; as written the path is unreachable behind the 404 at line 44 |
| CardReader.VerifyCardAsWrittenMissesRegisteredCard | src/controllers/CardReaderController.js:131-152 | a card of any valid UID registered to an active user is reported as not registered as written, but verifies to that user when the row is read |
| Face.RegisterFace | src/controllers/FaceController.js:3-27 | a missing field gives 400 and a failed upsert 500, both with no change; otherwise the user's single record holds the new hash, method `face` and now; nothing else changes |
| Face.VerifyFace | src/controllers/FaceController.js:29-69 | each outcome is an iff: 400 exactly for a missing field; 404 exactly when the user has no face record; success exactly when the stored hash equals the supplied one; 403 `FaceMismatch` exactly when a face record holds a different hash |
| Face.RegisterThenVerifyFace | src/controllers/FaceController.js:11-64 | after registering a hash, verifying it gives the user and any other hash is a mismatch; other users verify as before |

## Left out

- Realtime broadcasts on `locker_updates` are not modelled, because they are I/O with no effect on the tables. Only `controlLockerDoorAutoAssign` catches a failed broadcast (src/controllers/LockerAutoController.js:148-157). Door control (src/controllers/lockerDoorController.js:44-49), assignment (src/controllers/LockerSelectedDoorController.js:166-177), session end (:371-376) and pickup (:488-492) await the broadcast inside the main `try`. The model assumes that broadcast resolves; if it rejected, those handlers would reply 500 after all their writes.
- LockerAuto.ControlLockerDoorAutoAssign: the effects of the stored procedure `auto_assign_locker_door` are not modelled, because its body is not part of this model. Only its outcome, a door id or a failure, is an input.
- CardReader.RegisterCard: the best-effort `admin_actions` insert is not modelled. It is an audit row that nothing in the core reads.
- The `updated_at` columns of doors, sessions and credentials and the `created_at` of credentials are not modelled. They are wall-clock values that no handler reads back. The event log's `created_at` is modelled as `Event.at`, and the face record's `updated_at` as `FaceRecord.updatedAt`.
- Request fields are modelled as strings, with an absent field as the empty string. A non-string field is not modelled. The `typeof cardData === "string"` guard (src/controllers/CardReaderController.js:15) would refuse a non-string `cardData` with 400. The strict `===` code comparisons (src/controllers/LockerSelectedDoorController.js:103, :315, :449) would reject a non-string `access_code` against a legacy row.
- Errors of lookups that the code folds into "not found" or "no rows" are not distinguished from absent rows. The card lookups throw on an error, and `CardLookup` in `failing` models that as 500.
- The `requiresBiometric` flag in assignment is not modelled. It is computed and never used.
- The settings warning in session end is not modelled. It only logs.
- bcrypt and SHA-256 are inputs, so a bcrypt compare that throws is not modelled.
- Letter case is modelled for ASCII only. `CardReader.Lower` lower-cases ASCII letters only; a valid UID holds no other letters, and other strings are refused before hashing.
- A query without an `order` clause returns rows in table order here. The store gives no such guarantee, so "first row" means the first row in table order.
- Races between concurrent requests are not modelled. The handlers read and then write without locking.
- Console logging is not modelled.
- The default `source = "apk"` applies only when the field is absent. `source` is a parameter of the model.
- The foreign-key rules of the event table are not modelled. An event for a door id with no row is appended as is.
- CardReader.VerifyCard: a success carries only the user id, not the name and client of the user.
- Face.VerifyFace: the 403 reply's `verified: false` body is the error kind `FaceMismatch`.

## Findings

| source | as written | input that shows it | evidently intended | confidence | as-written member | corrected member |
|---|---|---|---|---|---|---|
| src/controllers/CardReaderController.js:38-49 | `registerCard` destructures `user` (and at line 52 `existing`) from a response whose row is in `data`, so `user` is always undefined and every valid request is refused as an unknown user | an existing user with no card registering `A1B2C3D4` | read the row from `data`; refuse only unknown users, conflicting cards and several rows with the hash, then replace the user's card | high (not executed) | CardReader.RegisterCardAsWrittenRefusesKnownUser | CardReader.RegisterCard |
| src/controllers/CardReaderController.js:131-152 | `verifyCard` destructures `credential` (and at line 155 `user`) from a response whose row is in `data`, so every valid UID held by at most one row is reported as not registered | one active card row holding the hash of `A1B2C3D4`, owned by an active user | read the rows from `data` and return the owning user | high (not executed) | CardReader.VerifyCardAsWrittenMissesRegisteredCard | CardReader.VerifyCard |
| src/controllers/LockerSelectedDoorController.js:340-354 | `endLockerSession` releases the door first and then treats a failed session update as best effort, by design, so the door is available while its session is still active. That policy conflicts with the documented invariant of at most one active session per door | a door held by `u` with one active session of `u`, whose session update fails; assigning the door to `v` afterwards gives the door two active sessions | keep at most one active session per door, for example by completing a door's stale active sessions when it is next assigned; the documentation rules out blocking the door's release on the session update | medium (not executed) | LockerSelectedDoor.EndSessionIgnoredUpdateBreaksCoherent | LockerSelectedDoor.EndSessionKeepsCoherent |
| src/controllers/CardReaderController.js:69-87 | `registerCard` ignores the result of deleting the user's old card rows and then inserts the new one. So once the user lookup reads `data`, a failed delete leaves two rows with the same hash when the same card is registered again. The defect is latent: as written, every valid request already stops with 404 at line 44, because of the defect at lines 38-49 | with the user lookup reading `data`: a user whose one card row holds the hash of `A1B2C3D4` re-registers `A1B2C3D4` while the delete fails; verifying the card then gives 500 | replace the card atomically, or fail when the delete fails | low (latent; not executed) | CardReader.RegisterWithFailedDeleteBreaksVerify | CardReader.RegisterKeepsCardHashesUnique |
