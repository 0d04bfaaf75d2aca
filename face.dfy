/** Face credentials: registration upserts one template hash per user, and
    verification compares a supplied hash with the stored one for equality. */
module Face {
  import opened Store

  /** `registerFace`. A missing user id or hash is refused with 400 and a
      failed upsert with 500, both changing nothing; otherwise the user's
      record is replaced by (or created as) a face record holding the new
      hash, and no other table or user changes. */
  method RegisterFace(db: Db, failing: set<StoreCall>, now: Time, userId: Id, faceHash: string)
    returns (r: Reply<()>)
    modifies db
    ensures userId == "" || faceHash == "" ==> r == Fail(MissingField) && unchanged(db)
    ensures userId != "" && faceHash != "" && FaceUpsert in failing ==> r == Fail(Internal) && unchanged(db)
    ensures userId != "" && faceHash != "" && FaceUpsert !in failing ==>
      r == Ok(())
      && db.biometrics == old(db.biometrics)[userId := FaceRecord(faceHash, "face", now)]
      && unchanged(db`doors, db`sessions, db`events, db`credentials, db`users, db`settings)
  {
    if userId == "" || faceHash == "" {
      return Fail(MissingField);
    }
    if FaceUpsert in failing {
      return Fail(Internal);
    }
    db.biometrics := db.biometrics[userId := FaceRecord(faceHash, "face", now)];
    r := Ok(());
  }

  /** `verifyFace`: 400 for a missing field, 404 when the user has no record
      of method `face`, success exactly when the stored hash equals the
      supplied one, and 403 otherwise. */
  function VerifyFace(biometrics: map<Id, FaceRecord>, userId: Id, faceHash: string): (r: Reply<Id>)
    ensures r == Fail(MissingField) <==> userId == "" || faceHash == ""
    ensures r == Fail(FaceNotFound) <==>
      userId != "" && faceHash != "" && (userId !in biometrics || biometrics[userId].methodType != "face")
    ensures r.Ok? <==>
      userId != "" && faceHash != "" && userId in biometrics && biometrics[userId].methodType == "face"
      && biometrics[userId].templateHash == faceHash
    ensures r == Fail(FaceMismatch) <==>
      userId != "" && faceHash != "" && userId in biometrics && biometrics[userId].methodType == "face"
      && biometrics[userId].templateHash != faceHash
    ensures r.Ok? ==> r.value == userId
    ensures r.Fail? ==> r.error in {MissingField, FaceNotFound, FaceMismatch}
  {
    if userId == "" || faceHash == "" then Fail(MissingField)
    else if userId !in biometrics || biometrics[userId].methodType != "face" then Fail(FaceNotFound)
    else if biometrics[userId].templateHash == faceHash then Ok(userId)
    else Fail(FaceMismatch)
  }

  /** Register then verify: after registering `h` for a user, verifying that
      user with `h` succeeds and with any other hash is a mismatch, and what
      every other user verifies to is unchanged. */
  lemma RegisterThenVerifyFace(biometrics: map<Id, FaceRecord>, now: Time, userId: Id, h: string,
                               other: string, otherUser: Id)
    requires userId != "" && h != ""
    ensures var after := biometrics[userId := FaceRecord(h, "face", now)];
      VerifyFace(after, userId, h) == Ok(userId)
      && (other != "" && other != h ==> VerifyFace(after, userId, other) == Fail(FaceMismatch))
      && (otherUser != userId ==> VerifyFace(after, otherUser, other) == VerifyFace(biometrics, otherUser, other))
  {
  }
}
