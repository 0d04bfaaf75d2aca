/** Explicit door selection: assigning a chosen door to a user, the global
    access-code lookup, ending a session and picking up an item. Each handler
    checks its guards in order and only then changes the door row, the
    session table and the event log. */
module LockerSelectedDoor {
  import opened Store
  import opened AccessCode

  /** The client requires an access code when one of its bound methods has the
      technical name `access_code`. */
  predicate RequiresAccessCode(s: Settings) {
    exists i :: 0 <= i < |s.authMethods| && s.authMethods[i] == "access_code"
  }

  /** A status under which a door is held by a user. */
  predicate HoldsAssignment(s: DoorStatus) {
    s == Occupied || s == Locked || s == Overdue
  }

  /** For one door: assigned to a user iff occupied, locked or overdue. */
  predicate AssignmentConsistent(d: Door) {
    d.assignedUser.Some? <==> HoldsAssignment(d.status)
  }

  /** The door row after a successful assignment. */
  function AssignedDoor(d: Door, userId: Id, now: Time): (r: Door)
    ensures r.status == Occupied && r.assignedUser == Some(userId) && r.assignedAt == Some(now)
    ensures r.clientId == d.clientId && r.lastOpenedAt == d.lastOpenedAt
    ensures AssignmentConsistent(r)
  {
    d.(status := Occupied, assignedUser := Some(userId), assignedAt := Some(now))
  }

  /** The door row after a session ends: free again and opened now. */
  function ReleasedDoor(d: Door, now: Time): (r: Door)
    ensures r.status == Available && r.assignedUser == None && r.assignedAt == None
    ensures r.lastOpenedAt == Some(now) && r.clientId == d.clientId
    ensures AssignmentConsistent(r)
  {
    d.(status := Available, assignedUser := None, assignedAt := None, lastOpenedAt := Some(now))
  }

  /** The door row after a pickup: only the last opening time moves. */
  function TouchedDoor(d: Door, now: Time): (r: Door)
    ensures r.lastOpenedAt == Some(now)
    ensures r.status == d.status && r.assignedUser == d.assignedUser && r.assignedAt == d.assignedAt
    ensures r.clientId == d.clientId
    ensures AssignmentConsistent(d) ==> AssignmentConsistent(r)
  {
    d.(lastOpenedAt := Some(now))
  }

  predicate IsOpenSessionOf(s: Session, doorId: Id, userId: Id) {
    s.status == Active && s.doorId == doorId && s.userId == userId
  }

  /** The session update of a session end: every active session of (door,
      user) becomes completed, with its end time and actual end time both
      `now`; every other row is left as it was. */
  function CompleteSessions(ss: seq<Session>, doorId: Id, userId: Id, now: Time): (r: seq<Session>)
    ensures |r| == |ss|
    ensures forall i :: 0 <= i < |r| ==> !IsOpenSessionOf(r[i], doorId, userId)
    ensures forall i :: 0 <= i < |r| && !IsOpenSessionOf(ss[i], doorId, userId) ==> r[i] == ss[i]
    ensures forall i :: 0 <= i < |r| && IsOpenSessionOf(ss[i], doorId, userId) ==>
      r[i].status == Completed && r[i].endTime == Some(now) && r[i].actualEndTime == Some(now)
      && r[i].doorId == doorId && r[i].userId == userId && r[i].startTime == ss[i].startTime
  {
    seq(|ss|, i requires 0 <= i < |ss| =>
      if IsOpenSessionOf(ss[i], doorId, userId) then ss[i].(status := Completed, endTime := Some(now), actualEndTime := Some(now))
      else ss[i])
  }

  /** The store-wide invariant that assignment and session end keep: doors
      are assignment-consistent, every active session's door exists, is not
      available and is assigned to the session's user, and no door has two
      active sessions. */
  ghost predicate Coherent(doors: map<Id, Door>, sessions: seq<Session>) {
    (forall id :: id in doors ==> AssignmentConsistent(doors[id]))
    && (forall i :: 0 <= i < |sessions| && sessions[i].status == Active ==>
          sessions[i].doorId in doors
          && doors[sessions[i].doorId].status != Available
          && doors[sessions[i].doorId].assignedUser == Some(sessions[i].userId))
    && (forall i, j :: 0 <= i < j < |sessions| && sessions[i].status == Active && sessions[j].status == Active
          ==> sessions[i].doorId != sessions[j].doorId)
  }

  /** A successful assignment keeps the invariant, whether or not the session
      insert that follows the door update succeeds. */
  lemma AssignKeepsCoherent(doors: map<Id, Door>, sessions: seq<Session>, doorId: Id, userId: Id, now: Time)
    requires Coherent(doors, sessions)
    requires doorId in doors && doors[doorId].status == Available
    ensures Coherent(doors[doorId := AssignedDoor(doors[doorId], userId, now)], sessions)
    ensures Coherent(doors[doorId := AssignedDoor(doors[doorId], userId, now)],
                     sessions + [Session(doorId, userId, now, None, None, Active)])
  {
    var doors' := doors[doorId := AssignedDoor(doors[doorId], userId, now)];
    var sessions' := sessions + [Session(doorId, userId, now, None, None, Active)];
    forall i | 0 <= i < |sessions| && sessions[i].status == Active
      ensures sessions[i].doorId != doorId
    {
    }
    forall i | 0 <= i < |sessions'| && sessions'[i].status == Active
      ensures sessions'[i].doorId in doors' && doors'[sessions'[i].doorId].status != Available
      ensures doors'[sessions'[i].doorId].assignedUser == Some(sessions'[i].userId)
    {
      if i < |sessions| { assert sessions'[i] == sessions[i]; }
    }
  }

  /** A successful session end keeps the invariant when the session update
      succeeds: the door's active sessions all belong to the caller, so all
      of them are completed. */
  lemma EndSessionKeepsCoherent(doors: map<Id, Door>, sessions: seq<Session>, doorId: Id, userId: Id, now: Time)
    requires Coherent(doors, sessions)
    requires doorId in doors && doors[doorId].assignedUser == Some(userId)
    ensures Coherent(doors[doorId := ReleasedDoor(doors[doorId], now)],
                     CompleteSessions(sessions, doorId, userId, now))
  {
    var doors' := doors[doorId := ReleasedDoor(doors[doorId], now)];
    var sessions' := CompleteSessions(sessions, doorId, userId, now);
    forall i | 0 <= i < |sessions'| && sessions'[i].status == Active
      ensures sessions'[i].doorId in doors' && sessions'[i].doorId != doorId
      ensures doors'[sessions'[i].doorId] == doors[sessions'[i].doorId]
    {
      assert !IsOpenSessionOf(sessions[i], doorId, userId);
      assert sessions'[i] == sessions[i];
    }
  }

  /** When the session update of a session end fails, which the handler
      ignores, the door is released while its session stays active, so the
      invariant breaks; a later assignment of the door then leaves two active
      sessions on it. */
  lemma EndSessionIgnoredUpdateBreaksCoherent(now: Time)
    ensures var doors := map["d" := Door("c", Occupied, Some("u"), Some(0), None)];
      var sessions := [Session("d", "u", 0, None, None, Active)];
      var released := doors["d" := ReleasedDoor(doors["d"], now)];
      var reassigned := released["d" := AssignedDoor(released["d"], "v", now)];
      var twice := sessions + [Session("d", "v", now, None, None, Active)];
      Coherent(doors, sessions)
      && !Coherent(released, sessions)
      && twice[0].status == Active && twice[1].status == Active && twice[0].doorId == twice[1].doorId
      && !Coherent(reassigned, twice)
  {
    var doors := map["d" := Door("c", Occupied, Some("u"), Some(0), None)];
    var sessions := [Session("d", "u", 0, None, None, Active)];
    var released := doors["d" := ReleasedDoor(doors["d"], now)];
    var reassigned := released["d" := AssignedDoor(released["d"], "v", now)];
    var twice := sessions + [Session("d", "v", now, None, None, Active)];
    assert sessions[0].status == Active && released[sessions[0].doorId].status == Available;
    assert twice[0].status == Active && twice[1].status == Active && twice[0].doorId == twice[1].doorId;
  }

  /** A pickup keeps the invariant: it changes no status, assignment or session. */
  lemma PickupKeepsCoherent(doors: map<Id, Door>, sessions: seq<Session>, doorId: Id, now: Time)
    requires Coherent(doors, sessions)
    requires doorId in doors
    ensures Coherent(doors[doorId := TouchedDoor(doors[doorId], now)], sessions)
  {
  }

  /** The guards of `assignLockerToUser`, in the order the handler checks them. */
  function AssignRefusal(doors: map<Id, Door>, settings: map<Id, Settings>, rows: seq<Credential>,
                         crypto: Crypto, failing: set<StoreCall>, doorId: Id, userId: Id, code: string)
    : Option<ErrorKind>
  {
    if doorId == "" || userId == "" then Some(MissingField)
    else if doorId !in doors then Some(DoorNotFound)
    else if doors[doorId].status != Available then Some(DoorUnavailable)
    else if doors[doorId].clientId !in settings then Some(SettingsNotFound)
    else if !settings[doors[doorId].clientId].allowUserAssignment then Some(AssignmentNotAllowed)
    else if AuthMethodsQuery in failing then Some(Internal)
    else if RequiresAccessCode(settings[doors[doorId].clientId]) then
      RequiredCodeCheck(crypto, rows, userId, code)
    else None
  }

  /** The assignment guards in the terms the handler promises: a door that is
      not available is refused before settings are read; a client without
      settings, or one that disallows self-assignment, is refused; the code
      gate refuses exactly as the required check does; and whatever passes is
      an available door of a client that allows assignment. */
  lemma AssignRefusalOrder(doors: map<Id, Door>, settings: map<Id, Settings>, rows: seq<Credential>,
                           crypto: Crypto, failing: set<StoreCall>, doorId: Id, userId: Id, code: string)
    requires doorId != "" && userId != "" && doorId in doors
    ensures doors[doorId].status != Available ==>
      AssignRefusal(doors, settings, rows, crypto, failing, doorId, userId, code) == Some(DoorUnavailable)
    ensures doors[doorId].status == Available && doors[doorId].clientId !in settings ==>
      AssignRefusal(doors, settings, rows, crypto, failing, doorId, userId, code) == Some(SettingsNotFound)
    ensures doors[doorId].status == Available && doors[doorId].clientId in settings
            && !settings[doors[doorId].clientId].allowUserAssignment ==>
      AssignRefusal(doors, settings, rows, crypto, failing, doorId, userId, code) == Some(AssignmentNotAllowed)
    ensures doors[doorId].status == Available && doors[doorId].clientId in settings
            && settings[doors[doorId].clientId].allowUserAssignment && AuthMethodsQuery !in failing
            && RequiresAccessCode(settings[doors[doorId].clientId]) ==>
      AssignRefusal(doors, settings, rows, crypto, failing, doorId, userId, code) == RequiredCodeCheck(crypto, rows, userId, code)
    ensures AssignRefusal(doors, settings, rows, crypto, failing, doorId, userId, code) == None ==>
      doors[doorId].status == Available && doors[doorId].clientId in settings
      && settings[doors[doorId].clientId].allowUserAssignment
  {
  }

  /** Assignment never looks at the user's other sessions: starting from two
      free doors of one client, the same user is assigned both, each
      assignment passes every guard, and the store stays coherent with two
      active sessions of that user. */
  lemma AssignAllowsTwoDoorsPerUser(crypto: Crypto, now: Time)
    ensures var free := Door("c", Available, None, None, None);
      var doors := map["d1" := free, "d2" := free];
      var settings := map["c" := Settings(true, [])];
      var doors1 := doors["d1" := AssignedDoor(free, "u", now)];
      var sessions1 := [Session("d1", "u", now, None, None, Active)];
      var doors2 := doors1["d2" := AssignedDoor(free, "u", now)];
      var sessions2 := sessions1 + [Session("d2", "u", now, None, None, Active)];
      AssignRefusal(doors, settings, [], crypto, {}, "d1", "u", "") == None
      && AssignRefusal(doors1, settings, [], crypto, {}, "d2", "u", "") == None
      && Coherent(doors2, sessions2)
      && doors2["d1"].assignedUser == Some("u") && doors2["d2"].assignedUser == Some("u")
      && sessions2[0].status == Active && sessions2[1].status == Active
      && sessions2[0].userId == sessions2[1].userId
  {
    var free := Door("c", Available, None, None, None);
    var doors := map["d1" := free, "d2" := free];
    var doors1 := doors["d1" := AssignedDoor(free, "u", now)];
    var sessions1 := [Session("d1", "u", now, None, None, Active)];
    assert !RequiresAccessCode(Settings(true, []));
    assert Coherent(doors, []);
    AssignKeepsCoherent(doors, [], "d1", "u", now);
    assert [] + sessions1 == sessions1;
    AssignKeepsCoherent(doors1, sessions1, "d2", "u", now);
  }

  /** `assignLockerToUser`: bind an available door to a user. A refusal changes
      nothing. After the guards, the door update, the session insert and the
      `assigned` event are each fatal (500) without undoing the steps
      before them; the `opened` event that follows is best effort. */
  method AssignLockerToUser(db: Db, crypto: Crypto, failing: set<StoreCall>, now: Time,
                            doorId: Id, userId: Id, accessCode: string, source: string)
    returns (r: Reply<Id>)
    modifies db
    ensures var refusal := AssignRefusal(old(db.doors), old(db.settings), old(db.credentials),
                                         crypto, failing, doorId, userId, accessCode);
      refusal.Some? ==> r == Fail(refusal.value) && unchanged(db)
    ensures AssignRefusal(old(db.doors), old(db.settings), old(db.credentials),
                          crypto, failing, doorId, userId, accessCode) == None ==>
      unchanged(db`credentials, db`biometrics, db`users, db`settings)
      && if DoorUpdate in failing then r == Fail(Internal) && unchanged(db)
      else
        db.doors == old(db.doors)[doorId := AssignedDoor(old(db.doors)[doorId], userId, now)]
        && if SessionInsert in failing then
          r == Fail(Internal) && db.sessions == old(db.sessions) && db.events == old(db.events)
        else
          db.sessions == old(db.sessions) + [Session(doorId, userId, now, None, None, Active)]
          && if EventInsert in failing then r == Fail(Internal) && db.events == old(db.events)
          else
            r == Ok(doorId)
            && db.events == old(db.events) + [Event(doorId, userId, "assigned", source, now)]
                 + (if FollowUpEventInsert in failing then []
                    else [Event(doorId, userId, "opened", source + "_initial_access", now)])
  {
    if doorId == "" || userId == "" {
      return Fail(MissingField);
    }
    if doorId !in db.doors {
      return Fail(DoorNotFound);
    }
    var door := db.doors[doorId];
    if door.status != Available {
      return Fail(DoorUnavailable);
    }
    if door.clientId !in db.settings {
      return Fail(SettingsNotFound);
    }
    var lockerSettings := db.settings[door.clientId];
    if !lockerSettings.allowUserAssignment {
      return Fail(AssignmentNotAllowed);
    }
    if AuthMethodsQuery in failing {
      return Fail(Internal);
    }
    if RequiresAccessCode(lockerSettings) {
      if accessCode == "" {
        return Fail(AccessCodeRequired);
      }
      var codes := UserCodes(db.credentials, userId);
      if codes == [] {
        return Fail(NoAccessCode);
      }
      if !codes[0].isActive {
        return Fail(AccessCodeInactive);
      }
      if !CodeMatches(crypto, accessCode, codes[0].hash) {
        return Fail(InvalidAccessCode);
      }
    }
    if DoorUpdate in failing {
      return Fail(Internal);
    }
    db.doors := db.doors[doorId := AssignedDoor(door, userId, now)];
    if SessionInsert in failing {
      return Fail(Internal);
    }
    db.sessions := db.sessions + [Session(doorId, userId, now, None, None, Active)];
    if EventInsert in failing {
      return Fail(Internal);
    }
    db.events := db.events + [Event(doorId, userId, "assigned", source, now)];
    if FollowUpEventInsert !in failing {
      db.events := db.events + [Event(doorId, userId, "opened", source + "_initial_access", now)];
    }
    r := Ok(doorId);
  }

  /** The single-row lookup `.eq("credential_hash", code).eq("method_type",
      "code").single()`: a row only when exactly one code row stores `code`. */
  function DirectMatch(rows: seq<Credential>, code: string): (r: Option<Credential>)
    ensures r.Some? ==> r.value in rows && r.value.kind == Code && r.value.hash == code
    ensures r.Some? ==> forall c :: c in rows && c.kind == Code && c.hash == code ==> c == r.value
    ensures r.Some? <==> |Select(rows, Query(None, Code, Some(code)))| == 1
  {
    var m := Select(rows, Query(None, Code, Some(code)));
    if |m| == 1 then
      assert m[0] in m;
      assert forall c :: c in m ==> c == m[0];
      Some(m[0])
    else None
  }

  /** A code row that the bcrypt scan of `validateAccessCode` accepts. */
  predicate ScanAccepts(crypto: Crypto, code: string, c: Credential) {
    c.isActive && crypto.bcryptCompare(code, c.hash)
  }

  /** `validateAccessCode`: find the user a code belongs to, with no user given.
      An active row that stores the code itself (and is the only code row
      that does) wins; otherwise every code row is scanned in table order and
      the first active one that bcrypt accepts wins; otherwise 403. */
  method ValidateAccessCode(db: Db, crypto: Crypto, failing: set<StoreCall>, code: string)
    returns (r: Reply<Id>)
    ensures code == "" ==> r == Fail(MissingField)
    ensures code != "" && DirectMatch(db.credentials, code).Some? && DirectMatch(db.credentials, code).value.isActive
      ==> r == Ok(DirectMatch(db.credentials, code).value.userId)
    ensures code != "" && !(DirectMatch(db.credentials, code).Some? && DirectMatch(db.credentials, code).value.isActive)
      ==> if CredentialScan in failing then r == Fail(Internal)
      else
        var all := Select(db.credentials, Query(None, Code, None));
        (r.Ok? <==> exists i :: 0 <= i < |all| && ScanAccepts(crypto, code, all[i]))
        && (r.Ok? ==> exists i :: 0 <= i < |all| && ScanAccepts(crypto, code, all[i]) && all[i].userId == r.value
                        && forall j :: 0 <= j < i ==> !ScanAccepts(crypto, code, all[j]))
        && (r.Fail? ==> r.error == InvalidAccessCode)
  {
    if code == "" {
      return Fail(MissingField);
    }
    var direct := DirectMatch(db.credentials, code);
    if direct.Some? && direct.value.isActive {
      return Ok(direct.value.userId);
    }
    if CredentialScan in failing {
      return Fail(Internal);
    }
    var all := Select(db.credentials, Query(None, Code, None));
    for i := 0 to |all|
      invariant forall j :: 0 <= j < i ==> !ScanAccepts(crypto, code, all[j])
    {
      if all[i].isActive {
        var isValid := crypto.bcryptCompare(code, all[i].hash);
        if isValid {
          assert ScanAccepts(crypto, code, all[i]);
          assert all == Select(db.credentials, Query(None, Code, None));
          return Ok(all[i].userId);
        }
      }
    }
    r := Fail(InvalidAccessCode);
  }

  /** The guards shared by `endLockerSession` and `pickupItem`, in order. */
  function OwnerRefusal(doors: map<Id, Door>, rows: seq<Credential>, crypto: Crypto,
                        doorId: Id, userId: Id, code: string): Option<ErrorKind>
  {
    if doorId == "" || userId == "" then Some(MissingField)
    else if doorId !in doors then Some(DoorNotFound)
    else if doors[doorId].assignedUser != Some(userId) then Some(Unauthorized)
    else if doors[doorId].status != Occupied && doors[doorId].status != Overdue then Some(NotOccupied)
    else if OptionalCodeRejects(crypto, rows, userId, code) then Some(InvalidAccessCode)
    else None
  }

  /** A caller that is not the assigned user is refused first as unauthorized,
      then a door that is neither occupied nor overdue; neither refusal
      depends on the code supplied. */
  lemma OwnerRefusalOrder(doors: map<Id, Door>, rows: seq<Credential>, crypto: Crypto,
                          doorId: Id, userId: Id, code: string)
    requires doorId != "" && userId != "" && doorId in doors
    ensures doors[doorId].assignedUser != Some(userId) ==>
      OwnerRefusal(doors, rows, crypto, doorId, userId, code) == Some(Unauthorized)
    ensures doors[doorId].assignedUser == Some(userId) && !(doors[doorId].status in {Occupied, Overdue}) ==>
      OwnerRefusal(doors, rows, crypto, doorId, userId, code) == Some(NotOccupied)
    ensures OwnerRefusal(doors, rows, crypto, doorId, userId, code) == None ==>
      doors[doorId].assignedUser == Some(userId) && HoldsAssignment(doors[doorId].status)
  {
  }

  /** `endLockerSession`: the assigned user gives the door back. A refusal
      changes nothing; a failed door update is fatal and changes nothing; the
      session update and the event insert that follow are best effort. */
  method EndLockerSession(db: Db, crypto: Crypto, failing: set<StoreCall>, now: Time,
                          doorId: Id, userId: Id, accessCode: string, source: string)
    returns (r: Reply<Id>)
    modifies db
    ensures var refusal := OwnerRefusal(old(db.doors), old(db.credentials), crypto, doorId, userId, accessCode);
      refusal.Some? ==> r == Fail(refusal.value) && unchanged(db)
    ensures OwnerRefusal(old(db.doors), old(db.credentials), crypto, doorId, userId, accessCode) == None ==>
      if DoorUpdate in failing then r == Fail(Internal) && unchanged(db)
      else
        r == Ok(doorId)
        && unchanged(db`credentials, db`biometrics, db`users, db`settings)
        && db.doors == old(db.doors)[doorId := ReleasedDoor(old(db.doors)[doorId], now)]
        && db.sessions == (if SessionUpdate in failing then old(db.sessions)
                           else CompleteSessions(old(db.sessions), doorId, userId, now))
        && db.events == old(db.events)
             + (if EventInsert in failing then [] else [Event(doorId, userId, "opened", source + "_end_session", now)])
  {
    if doorId == "" || userId == "" {
      return Fail(MissingField);
    }
    if doorId !in db.doors {
      return Fail(DoorNotFound);
    }
    var door := db.doors[doorId];
    if door.assignedUser != Some(userId) {
      return Fail(Unauthorized);
    }
    if door.status != Occupied && door.status != Overdue {
      return Fail(NotOccupied);
    }
    if accessCode != "" {
      var codes := UserCodes(db.credentials, userId);
      if codes != [] && codes[0].isActive {
        var isValid := CodeMatches(crypto, accessCode, codes[0].hash);
        if !isValid {
          return Fail(InvalidAccessCode);
        }
      }
    }
    if DoorUpdate in failing {
      return Fail(Internal);
    }
    db.doors := db.doors[doorId := ReleasedDoor(door, now)];
    if SessionUpdate !in failing {
      db.sessions := CompleteSessions(db.sessions, doorId, userId, now);
    }
    if EventInsert !in failing {
      db.events := db.events + [Event(doorId, userId, "opened", source + "_end_session", now)];
    }
    r := Ok(doorId);
  }

  /** `pickupItem`: the assigned user opens the door without ending the
      session. A refusal changes nothing; after it every write is best effort
      and the reply is 200. */
  method PickupItem(db: Db, crypto: Crypto, failing: set<StoreCall>, now: Time,
                    doorId: Id, userId: Id, accessCode: string, source: string)
    returns (r: Reply<Id>)
    modifies db
    ensures var refusal := OwnerRefusal(old(db.doors), old(db.credentials), crypto, doorId, userId, accessCode);
      refusal.Some? ==> r == Fail(refusal.value) && unchanged(db)
    ensures OwnerRefusal(old(db.doors), old(db.credentials), crypto, doorId, userId, accessCode) == None ==>
      r == Ok(doorId)
      && unchanged(db`sessions, db`credentials, db`biometrics, db`users, db`settings)
      && db.doors == (if DoorUpdate in failing then old(db.doors)
                      else old(db.doors)[doorId := TouchedDoor(old(db.doors)[doorId], now)])
      && db.events == old(db.events)
           + (if EventInsert in failing then [] else [Event(doorId, userId, "opened", source + "_pickup", now)])
  {
    if doorId == "" || userId == "" {
      return Fail(MissingField);
    }
    if doorId !in db.doors {
      return Fail(DoorNotFound);
    }
    var door := db.doors[doorId];
    if door.assignedUser != Some(userId) {
      return Fail(Unauthorized);
    }
    if door.status != Occupied && door.status != Overdue {
      return Fail(NotOccupied);
    }
    if accessCode != "" {
      var codes := UserCodes(db.credentials, userId);
      if codes != [] && codes[0].isActive {
        var isValid := CodeMatches(crypto, accessCode, codes[0].hash);
        if !isValid {
          return Fail(InvalidAccessCode);
        }
      }
    }
    if DoorUpdate !in failing {
      db.doors := db.doors[doorId := TouchedDoor(door, now)];
    }
    if EventInsert !in failing {
      db.events := db.events + [Event(doorId, userId, "opened", source + "_pickup", now)];
    }
    r := Ok(doorId);
  }

  /** A door's life on a fresh store: one user is assigned an available door,
      a second user is then refused it, the first user ends the session, and
      the second user's assignment now succeeds. The door ends up held by the
      second user and the event log records the five writes in order. */
  method AssignmentLifecycle(crypto: Crypto, u1: Id, u2: Id, source: string, t0: Time, t1: Time, t2: Time)
    returns (first: Reply<Id>, refused: Reply<Id>, ended: Reply<Id>, second: Reply<Id>,
             door: Door, log: seq<Event>)
    requires u1 != "" && u2 != "" && u1 != u2
    ensures first == Ok("d1") && refused == Fail(DoorUnavailable) && ended == Ok("d1") && second == Ok("d1")
    ensures door == Door("c1", Occupied, Some(u2), Some(t2), Some(t1))
    ensures log == [Event("d1", u1, "assigned", source, t0),
                    Event("d1", u1, "opened", source + "_initial_access", t0),
                    Event("d1", u1, "opened", source + "_end_session", t1),
                    Event("d1", u2, "assigned", source, t2),
                    Event("d1", u2, "opened", source + "_initial_access", t2)]
  {
    var db := new Db(map["d1" := Door("c1", Available, None, None, None)],
                     map[u1 := User("c1", true), u2 := User("c1", true)],
                     map["c1" := Settings(true, [])], []);
    first := AssignLockerToUser(db, crypto, {}, t0, "d1", u1, "", source);
    refused := AssignLockerToUser(db, crypto, {}, t0, "d1", u2, "", source);
    ended := EndLockerSession(db, crypto, {}, t1, "d1", u1, "", source);
    second := AssignLockerToUser(db, crypto, {}, t2, "d1", u2, "", source);
    door := db.doors["d1"];
    log := db.events;
  }
}
