/** `controlLockerDoor`: a door action on a door given by id, applied whatever
    the door's current status, followed by an event-log append. */
module LockerDoor {
  import opened Store
  import opened Actions
  import LockerSelectedDoor

  /** This handler's copy of the action-to-status table; `opened` gives the
      status `"in_use"`, so only `locked` leaves a door in a held status. */
  function ControlStatus(a: Action): (s: DoorStatus)
    ensures LockerSelectedDoor.HoldsAssignment(s) <==> a == Lock
    ensures a == Lock ==> s == Locked
    ensures a == Open ==> s == InUse
    ensures s == Available <==> a == Close || a == Unlock
  {
    match a
    case Open => InUse
    case Close => Available
    case Lock => Locked
    case Unlock => Available
  }

  /** The door row after an action. The status comes from the table alone,
      `last_opened_at` moves only on `opened` (the field is left out of the
      update otherwise), and the assignment is not touched. */
  function ControlledDoor(d: Door, a: Action, now: Time): (r: Door)
    ensures r.status == ControlStatus(a)
    ensures r.lastOpenedAt == if a == Open then Some(now) else d.lastOpenedAt
    ensures r.assignedUser == d.assignedUser && r.assignedAt == d.assignedAt && r.clientId == d.clientId
  {
    d.(status := ControlStatus(a), lastOpenedAt := if a == Open then Some(now) else d.lastOpenedAt)
  }

  /** Because the assignment is never cleared or set, the control path does
      not keep "assigned iff occupied, locked or overdue": closing an occupied
      door leaves it available and still assigned, and locking a free door
      leaves it locked and unassigned. */
  lemma ControlBreaksAssignmentConsistency(now: Time)
    ensures var held := Door("client", Occupied, Some("user"), Some(now), None);
      LockerSelectedDoor.AssignmentConsistent(held)
      && !LockerSelectedDoor.AssignmentConsistent(ControlledDoor(held, Close, now))
    ensures var free := Door("client", Available, None, None, None);
      LockerSelectedDoor.AssignmentConsistent(free)
      && !LockerSelectedDoor.AssignmentConsistent(ControlledDoor(free, Lock, now))
  {
  }

  /** `controlLockerDoor`. An unknown action is refused with 400 before any
      write. Otherwise the door row is updated (an id with no row is updated
      nowhere) and one event carrying the action string and `source` is
      appended; either write failing gives 500 and leaves the earlier write in
      place. A success replies with the status written. */
  method ControlLockerDoor(db: Db, failing: set<StoreCall>, now: Time,
                           doorId: Id, actionType: string, userId: Id, source: string)
    returns (r: Reply<DoorStatus>)
    modifies db
    ensures ParseAction(actionType) == None ==> r == Fail(InvalidAction) && unchanged(db)
    ensures ParseAction(actionType).Some? ==>
      var a := ParseAction(actionType).value;
      if DoorUpdate in failing then r == Fail(Internal) && unchanged(db)
      else
        unchanged(db`sessions, db`credentials, db`biometrics, db`users, db`settings)
        && db.doors == (if doorId in old(db.doors)
                        then old(db.doors)[doorId := ControlledDoor(old(db.doors)[doorId], a, now)]
                        else old(db.doors))
        && if EventInsert in failing then r == Fail(Internal) && db.events == old(db.events)
        else r == Ok(ControlStatus(a)) && db.events == old(db.events) + [Event(doorId, userId, actionType, source, now)]
  {
    var action := ParseAction(actionType);
    if action == None {
      return Fail(InvalidAction);
    }
    var newStatus: DoorStatus;
    if action.value == Open { newStatus := InUse; }
    if action.value == Close { newStatus := Available; }
    if action.value == Lock { newStatus := Locked; }
    if action.value == Unlock { newStatus := Available; }
    if DoorUpdate in failing {
      return Fail(Internal);
    }
    if doorId in db.doors {
      var door := db.doors[doorId];
      db.doors := db.doors[doorId := door.(status := newStatus,
                                           lastOpenedAt := if action.value == Open then Some(now) else door.lastOpenedAt)];
    }
    if EventInsert in failing {
      return Fail(Internal);
    }
    db.events := db.events + [Event(doorId, userId, actionType, source, now)];
    r := Ok(newStatus);
  }
}
