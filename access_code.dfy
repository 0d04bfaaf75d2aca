/** The access-code comparison that assignment, auto-assignment, session end
    and pickup each carry a copy of, and the two checks built on it: the
    required check (assignment, auto-assignment) and the optional one
    (session end, pickup). */
module AccessCode {
  import opened Store

  /** A stored code is either a bcrypt hash or a legacy plaintext value. */
  datatype StoredCode = Hashed(hash: string) | Legacy(plaintext: string)

  function StoredText(c: StoredCode): string {
    match c
    case Hashed(h) => h
    case Legacy(p) => p
  }

  predicate IsBcryptHash(stored: string) {
    StartsWith(stored, "$2b$") || StartsWith(stored, "$2a$")
  }

  /** The prefix sniff: a value starting with `$2b$` or `$2a$` is a bcrypt
      hash, anything else (including other bcrypt variants such as `$2y$`) is
      legacy plaintext. Classifying loses nothing of the stored value. */
  function Classify(stored: string): (c: StoredCode)
    ensures c.Hashed? <==> IsBcryptHash(stored)
    ensures StoredText(c) == stored
  {
    if IsBcryptHash(stored) then Hashed(stored) else Legacy(stored)
  }

  /** The dual-path comparison: bcrypt for a hashed row, exact equality for a
      legacy row. Going through the classification agrees with the handlers'
      direct prefix test. */
  function CodeMatches(crypto: Crypto, supplied: string, stored: string): (b: bool)
    ensures b <==> if StartsWith(stored, "$2b$") || StartsWith(stored, "$2a$")
                   then crypto.bcryptCompare(supplied, stored) else supplied == stored
  {
    match Classify(stored)
    case Hashed(h) => crypto.bcryptCompare(supplied, h)
    case Legacy(p) => supplied == p
  }

  /** What the comparison consults: a legacy row never calls bcrypt, so any
      two bcrypt implementations agree on it; and bcrypt is asked about the
      supplied code and the stored hash only, so SHA-256 and every other
      bcrypt answer are irrelevant. */
  lemma ComparisonPaths(c1: Crypto, c2: Crypto, supplied: string, stored: string)
    ensures !IsBcryptHash(stored) ==> CodeMatches(c1, supplied, stored) == CodeMatches(c2, supplied, stored)
    ensures c1.bcryptCompare(supplied, stored) == c2.bcryptCompare(supplied, stored) ==>
      CodeMatches(c1, supplied, stored) == CodeMatches(c2, supplied, stored)
  {
  }

  /** The code check of assignment and auto-assignment when the client's
      methods include `access_code`: 401 without a code, 403 when the user has
      no code row, when the first one is inactive, or when it does not match. */
  function RequiredCodeCheck(crypto: Crypto, rows: seq<Credential>, userId: Id, code: string)
    : (r: Option<ErrorKind>)
    ensures r == None <==>
      code != "" && UserCodes(rows, userId) != [] && UserCodes(rows, userId)[0].isActive
      && CodeMatches(crypto, code, UserCodes(rows, userId)[0].hash)
    ensures r == Some(AccessCodeRequired) <==> code == ""
    ensures r == Some(NoAccessCode) <==>
      code != "" && forall c :: c in rows ==> !(c.userId == userId && c.kind == Code)
    ensures r == Some(AccessCodeInactive) <==>
      code != "" && UserCodes(rows, userId) != [] && !UserCodes(rows, userId)[0].isActive
    ensures r == Some(InvalidAccessCode) <==>
      code != "" && UserCodes(rows, userId) != [] && UserCodes(rows, userId)[0].isActive
      && !CodeMatches(crypto, code, UserCodes(rows, userId)[0].hash)
    ensures r.Some? ==> r.value in {AccessCodeRequired, NoAccessCode, AccessCodeInactive, InvalidAccessCode}
  {
    var codes := UserCodes(rows, userId);
    if code == "" then Some(AccessCodeRequired)
    else if codes == [] then
      assert forall c :: c in rows && c.userId == userId && c.kind == Code ==> c in codes;
      Some(NoAccessCode)
    else
      assert codes[0] in codes;
      if !codes[0].isActive then Some(AccessCodeInactive)
      else if !CodeMatches(crypto, code, codes[0].hash) then Some(InvalidAccessCode)
      else None
  }

  /** The optional code check of session end and pickup: a supplied code is
      refused only when the user's first code row exists, is active and does
      not match; no code, or no code row, passes. */
  predicate OptionalCodeRejects(crypto: Crypto, rows: seq<Credential>, userId: Id, code: string) {
    var codes := UserCodes(rows, userId);
    code != "" && codes != [] && codes[0].isActive && !CodeMatches(crypto, code, codes[0].hash)
  }

  /** The optional check never refuses what the required check accepts, and
      once a code is supplied and the user has a code row they differ only on
      an inactive first row, which the optional check lets through. */
  lemma OptionalCheckIsWeaker(crypto: Crypto, rows: seq<Credential>, userId: Id, code: string)
    ensures OptionalCodeRejects(crypto, rows, userId, code) ==>
      RequiredCodeCheck(crypto, rows, userId, code) == Some(InvalidAccessCode)
    ensures code != "" && UserCodes(rows, userId) != [] && UserCodes(rows, userId)[0].isActive ==>
      (OptionalCodeRejects(crypto, rows, userId, code) <==> RequiredCodeCheck(crypto, rows, userId, code).Some?)
    ensures code == "" ==> !OptionalCodeRejects(crypto, rows, userId, code)
  {
  }
}
