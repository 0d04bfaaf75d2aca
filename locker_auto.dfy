/** `controlLockerDoorAutoAssign`: the same four actions as the plain control
    path, on a door chosen by an external selection procedure after the user,
    the client settings and (when required) the user's access code have been
    checked. */
module LockerAuto {
  import opened Store
  import opened Actions
  import opened AccessCode
  import LockerSelectedDoor
  import LockerDoor

  /** This handler's copy of the action-to-status table; `opened` gives
      `"occupied"`, so `opened` and `locked` leave a door in a held status. */
  function AutoStatus(a: Action): (s: DoorStatus)
    ensures LockerSelectedDoor.HoldsAssignment(s) <==> a == Open || a == Lock
    ensures a == Lock ==> s == Locked
    ensures a == Open ==> s == Occupied
    ensures s == Available <==> a == Close || a == Unlock
  {
    match a
    case Open => Occupied
    case Close => Available
    case Lock => Locked
    case Unlock => Available
  }

  /** The two copies of the table agree on every action but `opened`, where
      one writes `"in_use"` and the other `"occupied"`. */
  lemma StatusTablesDisagreeOnOpen(a: Action)
    ensures a != Open ==> AutoStatus(a) == LockerDoor.ControlStatus(a)
    ensures AutoStatus(Open) == Occupied && LockerDoor.ControlStatus(Open) == InUse
  {
  }

  /** The door row after an auto-assigned action: `last_opened_at` becomes
      `now` on `opened` and is cleared otherwise; the assignment is not
      touched. */
  function AutoControlledDoor(d: Door, a: Action, now: Time): (r: Door)
    ensures r.status == AutoStatus(a)
    ensures r.lastOpenedAt == if a == Open then Some(now) else None
    ensures r.assignedUser == d.assignedUser && r.assignedAt == d.assignedAt && r.clientId == d.clientId
  {
    d.(status := AutoStatus(a), lastOpenedAt := if a == Open then Some(now) else None)
  }

  /** The guards of the handler in order. `selected` is the outcome of the
      external door-selection procedure: a door id, or `None` when it failed. */
  function AutoRefusal(doors: map<Id, Door>, users: map<Id, User>, settings: map<Id, Settings>,
                       rows: seq<Credential>, crypto: Crypto, failing: set<StoreCall>,
                       actionType: string, userId: Id, code: string, selected: Option<Id>)
    : Option<ErrorKind>
  {
    if ParseAction(actionType) == None then Some(InvalidAction)
    else if userId !in users then Some(UserNotFound)
    else if !users[userId].isActive then Some(UserInactive)
    else if users[userId].clientId !in settings then Some(SettingsNotFound)
    else if AuthMethodsQuery in failing then Some(Internal)
    else if LockerSelectedDoor.RequiresAccessCode(settings[users[userId].clientId])
            && RequiredCodeCheck(crypto, rows, userId, code).Some? then
      RequiredCodeCheck(crypto, rows, userId, code)
    else if selected == None then Some(AutoAssignFailed)
    else if selected.value !in doors then Some(AssignedDoorNotFound)
    else None
  }

  /** The action is checked before anything else, then the user and the
      settings; when the client requires a code, the access-code gate refuses
      exactly when the assignment handler's check does, with the same error,
      and a request that gets past every guard passed that check. */
  lemma AutoRefusalOrder(doors: map<Id, Door>, users: map<Id, User>, settings: map<Id, Settings>,
                         rows: seq<Credential>, crypto: Crypto, failing: set<StoreCall>,
                         actionType: string, userId: Id, code: string, selected: Option<Id>)
    ensures ParseAction(actionType) == None ==>
      AutoRefusal(doors, users, settings, rows, crypto, failing, actionType, userId, code, selected) == Some(InvalidAction)
    ensures ParseAction(actionType).Some? && userId !in users ==>
      AutoRefusal(doors, users, settings, rows, crypto, failing, actionType, userId, code, selected) == Some(UserNotFound)
    ensures ParseAction(actionType).Some? && userId in users && !users[userId].isActive ==>
      AutoRefusal(doors, users, settings, rows, crypto, failing, actionType, userId, code, selected) == Some(UserInactive)
    ensures ParseAction(actionType).Some? && userId in users && users[userId].isActive
            && users[userId].clientId !in settings ==>
      AutoRefusal(doors, users, settings, rows, crypto, failing, actionType, userId, code, selected) == Some(SettingsNotFound)
    ensures ParseAction(actionType).Some? && userId in users && users[userId].isActive
            && users[userId].clientId in settings && AuthMethodsQuery !in failing
            && !LockerSelectedDoor.RequiresAccessCode(settings[users[userId].clientId]) && selected == None ==>
      AutoRefusal(doors, users, settings, rows, crypto, failing, actionType, userId, code, selected) == Some(AutoAssignFailed)
    ensures var refusal := AutoRefusal(doors, users, settings, rows, crypto, failing, actionType, userId, code, selected);
      refusal.Some? && refusal.value in {AccessCodeRequired, NoAccessCode, AccessCodeInactive, InvalidAccessCode} ==>
        refusal == RequiredCodeCheck(crypto, rows, userId, code)
    ensures ParseAction(actionType).Some? && userId in users && users[userId].isActive
            && users[userId].clientId in settings && AuthMethodsQuery !in failing
            && LockerSelectedDoor.RequiresAccessCode(settings[users[userId].clientId])
            && RequiredCodeCheck(crypto, rows, userId, code).Some? ==>
      AutoRefusal(doors, users, settings, rows, crypto, failing, actionType, userId, code, selected)
        == RequiredCodeCheck(crypto, rows, userId, code)
    ensures AutoRefusal(doors, users, settings, rows, crypto, failing, actionType, userId, code, selected) == None ==>
      selected.Some? && selected.value in doors && userId in users && users[userId].isActive
    ensures AutoRefusal(doors, users, settings, rows, crypto, failing, actionType, userId, code, selected) == None
            && userId in users && users[userId].clientId in settings
            && LockerSelectedDoor.RequiresAccessCode(settings[users[userId].clientId]) ==>
      RequiredCodeCheck(crypto, rows, userId, code) == None
  {
  }

  /** `controlLockerDoorAutoAssign`. A refusal changes nothing (the selection
      procedure's own effects are not modelled). Otherwise the chosen door is
      updated and one event carrying the action string is appended; either
      write failing gives 500 and leaves the earlier write in place. No
      session is opened, and a failed broadcast does not change the reply. */
  method ControlLockerDoorAutoAssign(db: Db, crypto: Crypto, failing: set<StoreCall>, now: Time,
                                     actionType: string, userId: Id, source: string, accessCode: string,
                                     selected: Option<Id>)
    returns (r: Reply<(Id, DoorStatus)>)
    modifies db
    ensures var refusal := AutoRefusal(old(db.doors), old(db.users), old(db.settings), old(db.credentials),
                                       crypto, failing, actionType, userId, accessCode, selected);
      refusal.Some? ==> r == Fail(refusal.value) && unchanged(db)
    ensures AutoRefusal(old(db.doors), old(db.users), old(db.settings), old(db.credentials),
                        crypto, failing, actionType, userId, accessCode, selected) == None ==>
      var a := ParseAction(actionType).value;
      var doorId := selected.value;
      if DoorUpdate in failing then r == Fail(Internal) && unchanged(db)
      else
        unchanged(db`sessions, db`credentials, db`biometrics, db`users, db`settings)
        && db.doors == old(db.doors)[doorId := AutoControlledDoor(old(db.doors)[doorId], a, now)]
        && if EventInsert in failing then r == Fail(Internal) && db.events == old(db.events)
        else
          r == Ok((doorId, AutoStatus(a)))
          && db.events == old(db.events) + [Event(doorId, userId, actionType, source, now)]
  {
    var action := ParseAction(actionType);
    if action == None {
      return Fail(InvalidAction);
    }
    if userId !in db.users {
      return Fail(UserNotFound);
    }
    var user := db.users[userId];
    if !user.isActive {
      return Fail(UserInactive);
    }
    if user.clientId !in db.settings {
      return Fail(SettingsNotFound);
    }
    if AuthMethodsQuery in failing {
      return Fail(Internal);
    }
    if LockerSelectedDoor.RequiresAccessCode(db.settings[user.clientId]) {
      if accessCode == "" {
        return Fail(AccessCodeRequired);
      }
      var codes := UserCodes(db.credentials, userId);
      if codes == [] {
        return Fail(NoAccessCode);
      }
      if !codes[0].isActive {
        return Fail(AccessCodeInactive);
      }
      if !CodeMatches(crypto, accessCode, codes[0].hash) {
        return Fail(InvalidAccessCode);
      }
    }
    if selected == None {
      return Fail(AutoAssignFailed);
    }
    var doorId := selected.value;
    if doorId !in db.doors {
      return Fail(AssignedDoorNotFound);
    }
    var newStatus: DoorStatus;
    if action.value == Open { newStatus := Occupied; }
    if action.value == Close { newStatus := Available; }
    if action.value == Lock { newStatus := Locked; }
    if action.value == Unlock { newStatus := Available; }
    if DoorUpdate in failing {
      return Fail(Internal);
    }
    db.doors := db.doors[doorId := db.doors[doorId].(status := newStatus,
                                                     lastOpenedAt := if action.value == Open then Some(now) else None)];
    if EventInsert in failing {
      return Fail(Internal);
    }
    db.events := db.events + [Event(doorId, userId, actionType, source, now)];
    r := Ok((doorId, newStatus));
  }
}
