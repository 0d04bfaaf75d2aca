/** The relational store that the locker handlers read and write, replaced by
    in-memory tables, and the vocabulary every handler shares: rows, the
    store calls that can fail, the error kinds and the HTTP status each is
    sent with. */
module Store {

  datatype Option<+T> = None | Some(value: T)

  /** Row identifiers as the handlers receive them. The empty string stands
      for a request field that is absent or empty (both falsy in the handlers). */
  type Id = string

  /** An abstract clock reading: every `new Date()` of one request reads `now`. */
  type Time = int

  /** Door statuses the handlers write or test. `InUse` and `Occupied` are
      distinct: the plain control path writes `"in_use"`, every other path
      writes and tests `"occupied"`. */
  datatype DoorStatus = Available | Occupied | InUse | Locked | Overdue

  /** A row of `locker_doors`. */
  datatype Door = Door(
    clientId: Id,
    status: DoorStatus,
    assignedUser: Option<Id>,
    assignedAt: Option<Time>,
    lastOpenedAt: Option<Time>)

  datatype SessionStatus = Active | Completed

  /** A row of `locker_sessions`. */
  datatype Session = Session(
    doorId: Id,
    userId: Id,
    startTime: Time,
    endTime: Option<Time>,
    actualEndTime: Option<Time>,
    status: SessionStatus)

  /** A row of the append-only `locker_door_events` log. */
  datatype Event = Event(doorId: Id, userId: Id, eventType: string, source: string, at: Time)

  datatype MethodType = Code | Card | Face

  /** A row of `user_credentials`: `hash` is a bcrypt hash, a legacy plaintext
      code, or a SHA-256 digest of a card UID. */
  datatype Credential = Credential(userId: Id, kind: MethodType, hash: string, isActive: bool)

  /** A row of `clients_users`, keyed by user id. */
  datatype User = User(clientId: Id, isActive: bool)

  /** A client's `client_locker_settings` row together with the technical names
      of the authentication methods bound to it (`client_auth_methods`). */
  datatype Settings = Settings(allowUserAssignment: bool, authMethods: seq<string>)

  /** A row of `user_biometrics`, keyed by user id. */
  datatype FaceRecord = FaceRecord(templateHash: string, methodType: string, updatedAt: Time)

  /** The one-way functions the handlers call: bcrypt's comparison of a supplied
      code against a stored hash, and SHA-256 as a hex digest. Their internals
      are not modelled; every property below holds for any such functions. */
  datatype Crypto = Crypto(bcryptCompare: (string, string) -> bool, sha256: string -> string)

  /** The store calls whose failure a handler reacts to. A request is modelled
      with the set of calls that fail during it. */
  datatype StoreCall =
    | AuthMethodsQuery    // client_auth_methods read
    | DoorUpdate          // locker_doors update
    | SessionInsert       // locker_sessions insert
    | SessionUpdate       // locker_sessions update (session end)
    | EventInsert         // first (or only) locker_door_events insert
    | FollowUpEventInsert // the second event insert of an assignment
    | CredentialScan      // read of every code credential
    | CardLookup          // card-row lookup by hash (register's conflict check, verify)
    | CardDelete          // delete of the user's previous card rows
    | CardInsert          // insert of the new card row
    | FaceUpsert          // user_biometrics upsert

  /** Every error reply the core handlers send. */
  datatype ErrorKind =
    | MissingField | DoorNotFound | DoorUnavailable | SettingsNotFound
    | AssignmentNotAllowed | AccessCodeRequired | NoAccessCode | AccessCodeInactive
    | InvalidAccessCode | Unauthorized | NotOccupied | InvalidAction
    | UserNotFound | UserInactive | AutoAssignFailed | AssignedDoorNotFound
    | InvalidCardData | CardAlreadyRegistered | CardNotRegistered | CardDeactivated
    | FaceNotFound | FaceMismatch | Internal

  /** The HTTP status a handler sends with each error kind. */
  function HttpStatus(e: ErrorKind): (code: nat)
    ensures 400 <= code < 600
    ensures code == 500 <==> e == Internal
  {
    match e
    case MissingField | DoorUnavailable | NotOccupied | InvalidAction
      | AutoAssignFailed | InvalidCardData => 400
    case AccessCodeRequired => 401
    case AssignmentNotAllowed | NoAccessCode | AccessCodeInactive | InvalidAccessCode
      | Unauthorized | UserInactive | CardDeactivated | FaceMismatch => 403
    case DoorNotFound | SettingsNotFound | UserNotFound | AssignedDoorNotFound
      | CardNotRegistered | FaceNotFound => 404
    case CardAlreadyRegistered => 409
    case Internal => 500
  }

  /** A handler's reply: 200 with a payload, or an error kind. */
  datatype Reply<+T> = Ok(value: T) | Fail(error: ErrorKind)

  /** The equality filters of a `user_credentials` query: `.eq("user_id", …)`
      when `userId` is given, `.eq("method_type", …)` always, and
      `.eq("credential_hash", …)` when `hash` is given. */
  datatype Query = Query(userId: Option<Id>, kind: MethodType, hash: Option<string>)

  predicate Matches(q: Query, c: Credential) {
    c.kind == q.kind
    && (q.userId.Some? ==> c.userId == q.userId.value)
    && (q.hash.Some? ==> c.hash == q.hash.value)
  }

  /** The rows a `select` with filters `q` returns, in table order. */
  function Select(rows: seq<Credential>, q: Query): (r: seq<Credential>)
    ensures forall c :: c in r <==> c in rows && Matches(q, c)
  {
    if rows == [] then []
    else if Matches(q, rows[0]) then [rows[0]] + Select(rows[1..], q)
    else Select(rows[1..], q)
  }

  /** A select keeps every matching row as often as the table holds it and
      drops every other row. */
  lemma {:induction false} SelectCounts(rows: seq<Credential>, q: Query)
    ensures forall c :: multiset(Select(rows, q))[c] == if Matches(q, c) then multiset(rows)[c] else 0
  {
    if rows != [] {
      assert rows == [rows[0]] + rows[1..];
      SelectCounts(rows[1..], q);
    }
  }

  /** The first row a select returns is the first matching row of the table. */
  lemma {:induction false} SelectHead(rows: seq<Credential>, q: Query, i: nat)
    requires i < |rows| && Matches(q, rows[i])
    requires forall j :: 0 <= j < i ==> !Matches(q, rows[j])
    ensures Select(rows, q) != [] && Select(rows, q)[0] == rows[i]
  {
    if i > 0 {
      assert !Matches(q, rows[0]);
      SelectHead(rows[1..], q, i - 1);
    }
  }

  /** A select that no row matches returns nothing. */
  lemma {:induction false} SelectNone(rows: seq<Credential>, q: Query)
    requires forall c :: c in rows ==> !Matches(q, c)
    ensures Select(rows, q) == []
  {
    if rows != [] {
      assert rows[0] in rows;
      SelectNone(rows[1..], q);
    }
  }

  /** The table left by a `delete` with filters `q`: every row that does not
      match, with its multiplicity, and no row that does. */
  function Delete(rows: seq<Credential>, q: Query): (r: seq<Credential>)
    ensures forall c :: Matches(q, c) ==> c !in r
    ensures forall c :: !Matches(q, c) ==> multiset(r)[c] == multiset(rows)[c]
  {
    if rows == [] then []
    else
      assert rows == [rows[0]] + rows[1..];
      if Matches(q, rows[0]) then Delete(rows[1..], q)
      else [rows[0]] + Delete(rows[1..], q)
  }

  /** The user's access-code rows, in table order. */
  function UserCodes(rows: seq<Credential>, userId: Id): seq<Credential> {
    Select(rows, Query(Some(userId), Code, None))
  }

  predicate StartsWith(s: string, prefix: string) {
    |prefix| <= |s| && s[..|prefix|] == prefix
  }

  /** The tables of the store. `users` and `settings` are only read by the
      core; the other tables are written by the handlers. */
  class Db {
    var doors: map<Id, Door>
    var sessions: seq<Session>
    var events: seq<Event>
    var credentials: seq<Credential>
    var biometrics: map<Id, FaceRecord>
    var users: map<Id, User>
    var settings: map<Id, Settings>   // keyed by client id

    constructor (doors: map<Id, Door>, users: map<Id, User>, settings: map<Id, Settings>,
                 credentials: seq<Credential>)
      ensures this.doors == doors && this.users == users && this.settings == settings
      ensures this.credentials == credentials
      ensures sessions == [] && events == [] && biometrics == map[]
    {
      this.doors := doors;
      this.users := users;
      this.settings := settings;
      this.credentials := credentials;
      sessions := [];
      events := [];
      biometrics := map[];
    }
  }
}
