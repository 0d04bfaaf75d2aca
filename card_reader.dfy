/** Card credentials: the UID format check, the normalise-then-hash step, card
    registration (retire the user's previous card rows, insert the new one)
    and card verification. */
module CardReader {
  import opened Store

  /** The characters JavaScript's `trim` removes: white space (tab, vertical
      tab, form feed, space, no-break space, byte order mark, the space
      separators) and line terminators. */
  predicate IsJsWhitespace(c: char) {
    c == '\t' || c == '\n' || c == '\U{B}' || c == '\U{C}' || c == '\r' || c == ' '
    || c == '\U{A0}' || c == '\U{1680}' || ('\U{2000}' <= c <= '\U{200A}')
    || c == '\U{2028}' || c == '\U{2029}' || c == '\U{202F}' || c == '\U{205F}'
    || c == '\U{3000}' || c == '\U{FEFF}'
  }

  predicate AllWhitespace(s: string) {
    forall i :: 0 <= i < |s| ==> IsJsWhitespace(s[i])
  }

  /** Leading white space removed: the result is a suffix of `s`, everything
      cut is white space, and the result does not start with white space. */
  function TrimStart(s: string): (r: string)
    ensures |r| <= |s| && r == s[|s| - |r|..]
    ensures forall i :: 0 <= i < |s| - |r| ==> IsJsWhitespace(s[i])
    ensures r == [] || !IsJsWhitespace(r[0])
  {
    if s != [] && IsJsWhitespace(s[0]) then TrimStart(s[1..]) else s
  }

  /** Trailing white space removed: the result is a prefix of `s`, everything
      cut is white space, and the result does not end with white space. */
  function TrimEnd(s: string): (r: string)
    ensures |r| <= |s| && r == s[..|r|]
    ensures forall i :: |r| <= i < |s| ==> IsJsWhitespace(s[i])
    ensures r == [] || !IsJsWhitespace(r[|r| - 1])
  {
    if s != [] && IsJsWhitespace(s[|s| - 1]) then TrimEnd(s[..|s| - 1]) else s
  }

  function Trim(s: string): string {
    TrimEnd(TrimStart(s))
  }

  /** `toLowerCase` on the ASCII letters, the only letters a valid UID holds. */
  function LowerChar(c: char): char {
    if 'A' <= c <= 'Z' then (c as int + 32) as char else c
  }

  function Lower(s: string): string {
    seq(|s|, i requires 0 <= i < |s| => LowerChar(s[i]))
  }

  predicate IsHexDigit(c: char) {
    '0' <= c <= '9' || 'a' <= c <= 'f' || 'A' <= c <= 'F'
  }

  predicate IsLowerHexDigit(c: char) {
    '0' <= c <= '9' || 'a' <= c <= 'f'
  }

  /** `isValidCardUid`: after trimming, 4 to 20 hexadecimal digits in either
      case; equivalently, what is hashed is 4 to 20 lower-case hex digits. */
  predicate IsValidCardUid(uid: string): (b: bool)
    ensures b <==> 4 <= |NormalizedUid(uid)| <= 20
                   && forall i :: 0 <= i < |NormalizedUid(uid)| ==> IsLowerHexDigit(NormalizedUid(uid)[i])
  {
    var t := Trim(uid);
    4 <= |t| <= 20 && forall i :: 0 <= i < |t| ==> IsHexDigit(t[i])
  }

  /** The input of the digest: the trimmed UID lower-cased. Each ASCII
      upper-case letter of the trimmed UID becomes its lower-case letter and
      every other character is kept, so the result is as long as the trimmed
      UID, holds no upper-case letter, neither starts nor ends with white
      space, and has a lower-case hex digit exactly where the trimmed UID has
      a hex digit. */
  function NormalizedUid(uid: string): (n: string)
    ensures |n| == |Trim(uid)|
    ensures forall i :: 0 <= i < |n| ==>
      !('A' <= n[i] <= 'Z') && (IsHexDigit(Trim(uid)[i]) <==> IsLowerHexDigit(n[i]))
    ensures n == [] || (!IsJsWhitespace(n[0]) && !IsJsWhitespace(n[|n| - 1]))
    ensures forall i :: 0 <= i < |n| ==>
      if 'A' <= Trim(uid)[i] <= 'Z' then n[i] as int == Trim(uid)[i] as int + 32 else n[i] == Trim(uid)[i]
  {
    LowerKeepsClasses(Trim(uid));
    Lower(Trim(uid))
  }

  /** `hashCardUid`: SHA-256 of the normalised UID, so the digest of a valid
      UID is always taken of 4 to 20 lower-case hex digits. */
  function HashCardUid(crypto: Crypto, uid: string): (h: string)
    ensures IsValidCardUid(uid) ==>
      exists n :: h == crypto.sha256(n) && 4 <= |n| <= 20 && forall i :: 0 <= i < |n| ==> IsLowerHexDigit(n[i])
  {
    crypto.sha256(NormalizedUid(uid))
  }

  /** Lower-casing a string character by character keeps its length, its
      white space and its hex digits, and leaves no upper-case letter. */
  lemma LowerKeepsClasses(t: string)
    ensures |Lower(t)| == |t|
    ensures forall i :: 0 <= i < |t| ==>
      !('A' <= Lower(t)[i] <= 'Z') && IsJsWhitespace(Lower(t)[i]) == IsJsWhitespace(t[i])
      && (IsHexDigit(t[i]) <==> IsLowerHexDigit(Lower(t)[i]))
  {
    forall i | 0 <= i < |t|
      ensures !('A' <= Lower(t)[i] <= 'Z') && IsJsWhitespace(Lower(t)[i]) == IsJsWhitespace(t[i])
      ensures IsHexDigit(t[i]) <==> IsLowerHexDigit(Lower(t)[i])
    {
      LowerCharClasses(t[i]);
    }
  }

  /** Lower-casing moves letters only, so it keeps white space and maps the
      hexadecimal digits onto the lower-case ones. */
  lemma LowerCharClasses(c: char)
    ensures IsJsWhitespace(LowerChar(c)) == IsJsWhitespace(c)
    ensures IsHexDigit(c) == IsLowerHexDigit(LowerChar(c))
  {
    if 'A' <= c <= 'Z' {
      assert 'a' <= LowerChar(c) <= 'z';
    }
  }

  lemma {:induction false} TrimStartSkipsWhitespace(p: string, x: string)
    requires AllWhitespace(p)
    ensures TrimStart(p + x) == TrimStart(x)
  {
    if p == [] {
      assert p + x == x;
    } else {
      assert (p + x)[0] == p[0];
      assert (p + x)[1..] == p[1..] + x;
      TrimStartSkipsWhitespace(p[1..], x);
    }
  }

  lemma {:induction false} TrimEndSkipsWhitespace(x: string, s: string)
    requires AllWhitespace(s)
    ensures TrimEnd(x + s) == TrimEnd(x)
  {
    if s == [] {
      assert x + s == x;
    } else {
      var s' := s[..|s| - 1];
      assert (x + s)[|x + s| - 1] == s[|s| - 1];
      assert (x + s)[..|x + s| - 1] == x + s';
      TrimEndSkipsWhitespace(x, s');
    }
  }

  lemma {:induction false} TrimAppendWhitespace(u: string, s: string)
    requires AllWhitespace(s)
    ensures TrimEnd(TrimStart(u + s)) == TrimEnd(TrimStart(u))
  {
    if u == [] {
      assert u + s == s && s + [] == s;
      TrimStartSkipsWhitespace(s, []);
    } else if IsJsWhitespace(u[0]) {
      assert (u + s)[0] == u[0];
      assert (u + s)[1..] == u[1..] + s;
      TrimAppendWhitespace(u[1..], s);
    } else {
      assert (u + s)[0] == u[0];
      TrimEndSkipsWhitespace(u, s);
    }
  }

  /** Surrounding white space never changes what `trim` leaves. */
  lemma TrimIgnoresSurroundingWhitespace(p: string, u: string, s: string)
    requires AllWhitespace(p) && AllWhitespace(s)
    ensures Trim(p + u + s) == Trim(u)
  {
    assert p + u + s == p + (u + s);
    TrimStartSkipsWhitespace(p, u + s);
    assert TrimStart(p + u + s) == TrimStart(u + s);
    TrimAppendWhitespace(u, s);
    assert Trim(u + s) == Trim(u);
  }

  lemma {:induction false} LowerTrimStart(u: string)
    ensures TrimStart(Lower(u)) == Lower(TrimStart(u))
  {
    if u != [] {
      LowerCharClasses(u[0]);
      assert Lower(u)[0] == LowerChar(u[0]);
      assert Lower(u)[1..] == Lower(u[1..]);
      LowerTrimStart(u[1..]);
    }
  }

  lemma {:induction false} LowerTrimEnd(u: string)
    ensures TrimEnd(Lower(u)) == Lower(TrimEnd(u))
  {
    if u != [] {
      LowerCharClasses(u[|u| - 1]);
      assert Lower(u)[|u| - 1] == LowerChar(u[|u| - 1]);
      assert Lower(u)[..|u| - 1] == Lower(u[..|u| - 1]);
      LowerTrimEnd(u[..|u| - 1]);
    }
  }

  /** Lower-casing before or after trimming gives the same string. */
  lemma LowerTrimCommute(u: string)
    ensures Trim(Lower(u)) == Lower(Trim(u))
  {
    LowerTrimStart(u);
    LowerTrimEnd(TrimStart(u));
  }

  /** Two strings equal up to letter case are equally valid UIDs. */
  lemma HexUpToCase(t: string, t': string)
    requires Lower(t) == Lower(t')
    ensures |t| == |t'|
    ensures (forall i :: 0 <= i < |t| ==> IsHexDigit(t[i])) == (forall i :: 0 <= i < |t'| ==> IsHexDigit(t'[i]))
  {
    assert |Lower(t)| == |t| && |Lower(t')| == |t'|;
    forall i | 0 <= i < |t| ensures IsHexDigit(t[i]) == IsHexDigit(t'[i]) {
      LowerCharClasses(t[i]);
      LowerCharClasses(t'[i]);
      assert Lower(t)[i] == LowerChar(t[i]) && Lower(t')[i] == LowerChar(t'[i]);
    }
  }

  /** UIDs that differ only in letter case and in surrounding white space are
      equally valid and produce the same stored hash. */
  lemma CardUidVariants(crypto: Crypto, p: string, u: string, s: string, v: string)
    requires AllWhitespace(p) && AllWhitespace(s) && Lower(u) == Lower(v)
    ensures IsValidCardUid(p + u + s) == IsValidCardUid(v)
    ensures HashCardUid(crypto, p + u + s) == HashCardUid(crypto, v)
  {
    TrimIgnoresSurroundingWhitespace(p, u, s);
    LowerTrimCommute(u);
    LowerTrimCommute(v);
    HexUpToCase(Trim(u), Trim(v));
  }

  /** What a valid UID is hashed from is 4 to 20 lower-case hexadecimal digits. */
  lemma ValidUidNormalizesToLowerHex(uid: string)
    requires IsValidCardUid(uid)
    ensures 4 <= |NormalizedUid(uid)| <= 20
    ensures forall i :: 0 <= i < |NormalizedUid(uid)| ==> IsLowerHexDigit(NormalizedUid(uid)[i])
  {
    var t := Trim(uid);
    forall i | 0 <= i < |t| ensures IsLowerHexDigit(NormalizedUid(uid)[i]) {
      LowerCharClasses(t[i]);
    }
  }

  /** The card rows holding hash `h`: `.eq("credential_hash", h).eq("method_type", "card")`. */
  function CardHolders(rows: seq<Credential>, h: string): seq<Credential> {
    Select(rows, Query(None, Card, Some(h)))
  }

  /** The guards of `registerCard`, in order, with the user lookup reading the
      response's row. The conflict lookup fails (500) when the store call
      fails, and when several card rows hold the hash (`.maybeSingle()`). */
  function RegisterRefusal(users: map<Id, User>, rows: seq<Credential>, crypto: Crypto,
                           failing: set<StoreCall>, userId: Id, cardData: string): Option<ErrorKind>
  {
    if cardData == "" || !IsValidCardUid(cardData) then Some(InvalidCardData)
    else if userId !in users then Some(UserNotFound)
    else if CardLookup in failing then Some(Internal)
    else
      var holders := CardHolders(rows, HashCardUid(crypto, cardData));
      if |holders| > 1 then Some(Internal)
      else if |holders| == 1 && holders[0].userId != userId then Some(CardAlreadyRegistered)
      else None
  }

  /** The credential table after a registration whose delete and insert both
      succeed (`CardDelete` and `CardInsert` not failing). */
  function ReplaceCard(rows: seq<Credential>, userId: Id, h: string): seq<Credential> {
    Delete(rows, Query(Some(userId), Card, None)) + [Credential(userId, Card, h, true)]
  }

  /** `registerCard` with the user lookup read from the response's `data`. A
      refusal changes nothing. Otherwise the user's card rows are deleted
      (a failed delete is ignored) and the new active row is inserted (a
      failed insert gives 500 after the delete). */
  method RegisterCard(db: Db, crypto: Crypto, failing: set<StoreCall>, userId: Id, cardData: string)
    returns (r: Reply<Id>)
    modifies db
    ensures var refusal := RegisterRefusal(old(db.users), old(db.credentials), crypto, failing, userId, cardData);
      refusal.Some? ==> r == Fail(refusal.value) && unchanged(db)
    ensures RegisterRefusal(old(db.users), old(db.credentials), crypto, failing, userId, cardData) == None ==>
      var kept := if CardDelete in failing then old(db.credentials)
                  else Delete(old(db.credentials), Query(Some(userId), Card, None));
      unchanged(db`doors, db`sessions, db`events, db`biometrics, db`users, db`settings)
      && if CardInsert in failing then r == Fail(Internal) && db.credentials == kept
      else r == Ok(userId) && db.credentials == kept + [Credential(userId, Card, HashCardUid(crypto, cardData), true)]
  {
    if cardData == "" || !IsValidCardUid(cardData) {
      return Fail(InvalidCardData);
    }
    var cardHash := HashCardUid(crypto, cardData);
    if userId !in db.users {
      return Fail(UserNotFound);
    }
    if CardLookup in failing {
      return Fail(Internal);
    }
    var holders := CardHolders(db.credentials, cardHash);
    if |holders| > 1 {
      return Fail(Internal);
    }
    if |holders| == 1 && holders[0].userId != userId {
      return Fail(CardAlreadyRegistered);
    }
    if CardDelete !in failing {
      db.credentials := Delete(db.credentials, Query(Some(userId), Card, None));
    }
    if CardInsert in failing {
      return Fail(Internal);
    }
    db.credentials := db.credentials + [Credential(userId, Card, cardHash, true)];
    r := Ok(userId);
  }

  lemma {:induction false} SelectAppend(a: seq<Credential>, b: seq<Credential>, q: Query)
    ensures Select(a + b, q) == Select(a, q) + Select(b, q)
  {
    if a == [] {
      assert a + b == b;
    } else {
      assert (a + b)[0] == a[0];
      assert (a + b)[1..] == a[1..] + b;
      SelectAppend(a[1..], b, q);
    }
  }

  /** After a registration whose delete succeeds the user holds exactly one
      card row, the new active one; the rows of other users and the user's other rows are kept with
      their multiplicities. */
  lemma RegisterLeavesOneCard(rows: seq<Credential>, userId: Id, h: string)
    ensures Select(ReplaceCard(rows, userId, h), Query(Some(userId), Card, None))
            == [Credential(userId, Card, h, true)]
    ensures forall c: Credential :: !(c.userId == userId && c.kind == Card) ==>
      multiset(ReplaceCard(rows, userId, h))[c] == multiset(rows)[c]
  {
    var q := Query(Some(userId), Card, None);
    var kept := Delete(rows, q);
    SelectNone(kept, q);
    SelectAppend(kept, [Credential(userId, Card, h, true)], q);
  }

  /** No two card rows hold the same hash, so the card lookup's
      `.maybeSingle()` never meets several rows. */
  ghost predicate CardHashesUnique(rows: seq<Credential>) {
    forall h :: |CardHolders(rows, h)| <= 1
  }

  /** A delete never adds rows to what a select returns. */
  lemma {:induction false} DeleteShrinksSelect(rows: seq<Credential>, q: Query, q': Query)
    ensures |Select(Delete(rows, q), q')| <= |Select(rows, q')|
  {
    if rows != [] {
      DeleteShrinksSelect(rows[1..], q, q');
      var d := Delete(rows[1..], q);
      if !Matches(q, rows[0]) {
        assert ([rows[0]] + d)[0] == rows[0] && ([rows[0]] + d)[1..] == d;
      }
    }
  }

  /** A registration that passed its guards and whose delete succeeds keeps
      card hashes unique: the only row that could already hold the hash is the
      user's own, and it is deleted before the insert. */
  lemma RegisterKeepsCardHashesUnique(users: map<Id, User>, rows: seq<Credential>, crypto: Crypto,
                                      failing: set<StoreCall>, userId: Id, cardData: string)
    requires CardHashesUnique(rows)
    requires RegisterRefusal(users, rows, crypto, failing, userId, cardData) == None
    ensures CardHashesUnique(ReplaceCard(rows, userId, HashCardUid(crypto, cardData)))
  {
    var h := HashCardUid(crypto, cardData);
    HoldersAreTheUser(users, rows, crypto, failing, userId, cardData);
    forall h' ensures |CardHolders(ReplaceCard(rows, userId, h), h')| <= 1 {
      ReplaceKeepsHolderCount(rows, userId, h, h');
    }
  }

  /** For one hash `h'`: replacing the user's card by one holding `h` leaves
      at most one holder of `h'`, when every holder of `h` was the user's. */
  lemma ReplaceKeepsHolderCount(rows: seq<Credential>, userId: Id, h: string, h': string)
    requires CardHashesUnique(rows)
    requires forall c :: c in rows && c.kind == Card && c.hash == h ==> c.userId == userId
    ensures |CardHolders(ReplaceCard(rows, userId, h), h')| <= 1
  {
    var q := Query(Some(userId), Card, None);
    var kept := Delete(rows, q);
    var added := Credential(userId, Card, h, true);
    var qh := Query(None, Card, Some(h'));
    SelectAppend(kept, [added], qh);
    if h' == h {
      forall c | c in kept ensures !Matches(qh, c) {
        DeleteMembers(rows, q, c);
      }
      SelectNone(kept, qh);
    } else {
      DeleteShrinksSelect(rows, q, qh);
      assert CardHolders(rows, h') == Select(rows, qh);
    }
  }

  /** Once the guards pass, every card row holding the hash is the user's. */
  lemma HoldersAreTheUser(users: map<Id, User>, rows: seq<Credential>, crypto: Crypto,
                          failing: set<StoreCall>, userId: Id, cardData: string)
    requires RegisterRefusal(users, rows, crypto, failing, userId, cardData) == None
    ensures forall c :: c in rows && c.kind == Card && c.hash == HashCardUid(crypto, cardData) ==> c.userId == userId
  {
    var holders := CardHolders(rows, HashCardUid(crypto, cardData));
    forall c | c in rows && c.kind == Card && c.hash == HashCardUid(crypto, cardData)
      ensures c.userId == userId
    {
      assert c in holders;
      assert |holders| == 1 && holders[0] == c;
    }
  }

  /** `verifyCard` with the lookups read from the responses' `data`: 400 for a
      malformed UID; 500 when the card lookup fails or several card rows hold
      the hash; 404 when none does; 403 when the one row is inactive; 404 when
      its user is missing or inactive; else that user. */
  function VerifyCard(users: map<Id, User>, rows: seq<Credential>, crypto: Crypto,
                      failing: set<StoreCall>, cardData: string): (r: Reply<Id>)
    ensures !IsValidCardUid(cardData) ==> r == Fail(InvalidCardData)
    ensures IsValidCardUid(cardData) && CardLookup in failing ==> r == Fail(Internal)
    ensures r == Fail(CardNotRegistered) <==>
      IsValidCardUid(cardData) && CardLookup !in failing
      && forall c :: c in rows ==> !(c.kind == Card && c.hash == HashCardUid(crypto, cardData))
    ensures var holders := CardHolders(rows, HashCardUid(crypto, cardData));
      IsValidCardUid(cardData) && CardLookup !in failing ==>
        (|holders| > 1 ==> r == Fail(Internal))
        && (|holders| == 1 && !holders[0].isActive ==> r == Fail(CardDeactivated))
        && ((|holders| == 1 && holders[0].isActive
             && (holders[0].userId !in users || !users[holders[0].userId].isActive)) ==> r == Fail(UserNotFound))
        && ((|holders| == 1 && holders[0].isActive
             && holders[0].userId in users && users[holders[0].userId].isActive) ==> r == Ok(holders[0].userId))
    ensures r.Ok? ==> r.value in users && users[r.value].isActive
    ensures r.Ok? ==> exists c :: c in rows && c.kind == Card && c.isActive
                                && c.hash == HashCardUid(crypto, cardData) && c.userId == r.value
  {
    if cardData == "" || !IsValidCardUid(cardData) then Fail(InvalidCardData)
    else if CardLookup in failing then Fail(Internal)
    else
      var holders := CardHolders(rows, HashCardUid(crypto, cardData));
      if |holders| > 1 then
        assert holders[0] in holders;
        Fail(Internal)
      else if holders == [] then Fail(CardNotRegistered)
      else
        assert holders[0] in holders;
        if !holders[0].isActive then Fail(CardDeactivated)
        else if holders[0].userId !in users || !users[holders[0].userId].isActive then Fail(UserNotFound)
        else Ok(holders[0].userId)
  }

  /** Register then verify: once a card is registered to an active user
      (guards passed, delete and insert succeeded), a later verification whose
      card lookup succeeds returns that user for the same UID and for any
      variant of it in letter case or surrounding white space. */
  lemma RegisterThenVerify(users: map<Id, User>, rows: seq<Credential>, crypto: Crypto,
                           failing: set<StoreCall>, later: set<StoreCall>,
                           userId: Id, cardData: string, p: string, s: string, variant: string)
    requires RegisterRefusal(users, rows, crypto, failing, userId, cardData) == None
    requires users[userId].isActive && CardLookup !in later
    requires AllWhitespace(p) && AllWhitespace(s) && Lower(variant) == Lower(cardData)
    ensures VerifyCard(users, ReplaceCard(rows, userId, HashCardUid(crypto, cardData)), crypto, later, cardData) == Ok(userId)
    ensures VerifyCard(users, ReplaceCard(rows, userId, HashCardUid(crypto, cardData)), crypto, later, p + variant + s) == Ok(userId)
  {
    var h := HashCardUid(crypto, cardData);
    var added := Credential(userId, Card, h, true);
    var kept := Delete(rows, Query(Some(userId), Card, None));
    HoldersAreTheUser(users, rows, crypto, failing, userId, cardData);
    var none := CardHolders(kept, h);
    if none != [] {
      assert none[0] in none && none[0] in kept;
      DeleteMembers(rows, Query(Some(userId), Card, None), none[0]);
    }
    SelectAppend(kept, [added], Query(None, Card, Some(h)));
    assert CardHolders(ReplaceCard(rows, userId, h), h) == [added];
    CardUidVariants(crypto, p, variant, s, cardData);
    assert p + variant + s != "" by {
      TrimIgnoresSurroundingWhitespace(p, variant, s);
    }
  }

  lemma DeleteMembers(rows: seq<Credential>, q: Query, c: Credential)
    requires c in Delete(rows, q)
    ensures c in rows && !Matches(q, c)
  {
    assert multiset(Delete(rows, q))[c] > 0;
  }

  /** As written, `registerCard` destructures `user` from the user lookup's
      response, whose row sits in `data`: the binding is always undefined, so
      any request that passes the UID check is refused as an unknown user
      before the conflict check or any write. */
  function RegisterCardAsWritten(cardData: string): (r: Reply<Id>)
    ensures r.Fail?
    ensures IsValidCardUid(cardData) ==> r == Fail(UserNotFound)
  {
    if cardData == "" || !IsValidCardUid(cardData) then Fail(InvalidCardData)
    else Fail(UserNotFound)
  }

  /** As written, `verifyCard` destructures `credential` from a response whose
      row sits in `data`: a lookup error still gives 500, but
      otherwise every valid UID is reported as not registered. */
  function VerifyCardAsWritten(rows: seq<Credential>, crypto: Crypto, failing: set<StoreCall>,
                               cardData: string): (r: Reply<Id>)
    ensures r.Fail?
    ensures !IsValidCardUid(cardData) ==> r == Fail(InvalidCardData)
    ensures IsValidCardUid(cardData)
            && (CardLookup in failing || |CardHolders(rows, HashCardUid(crypto, cardData))| > 1) ==>
      r == Fail(Internal)
    ensures IsValidCardUid(cardData) && CardLookup !in failing
            && |CardHolders(rows, HashCardUid(crypto, cardData))| <= 1 ==>
      r == Fail(CardNotRegistered)
  {
    if cardData == "" || !IsValidCardUid(cardData) then Fail(InvalidCardData)
    else if CardLookup in failing then Fail(Internal)
    else if |CardHolders(rows, HashCardUid(crypto, cardData))| > 1 then Fail(Internal)
    else Fail(CardNotRegistered)
  }

  lemma SampleUidIsValid()
    ensures IsValidCardUid("A1B2C3D4")
  {
    var s := "A1B2C3D4";
    assert s[0] == 'A' && !IsJsWhitespace(s[0]);
    assert TrimStart(s) == s;
    assert s[|s| - 1] == '4' && !IsJsWhitespace(s[|s| - 1]);
    assert TrimEnd(s) == s;
    assert forall i :: 0 <= i < |s| ==> IsHexDigit(s[i]);
  }

  /** The input that shows the defect: an existing user with no card on file
      registering any valid UID, such as `A1B2C3D4` (`SampleUidIsValid`). As
      written the request is refused as an unknown user; read through `data`,
      every guard passes. */
  lemma RegisterCardAsWrittenRefusesKnownUser(users: map<Id, User>, crypto: Crypto, userId: Id, cardData: string)
    requires userId in users && IsValidCardUid(cardData)
    ensures RegisterCardAsWritten(cardData) == Fail(UserNotFound)
    ensures RegisterRefusal(users, [], crypto, {}, userId, cardData) == None
  {
    assert CardHolders([], HashCardUid(crypto, cardData)) == [];
  }

  /** The input that shows the defect: the only card row holds the hash of a
      valid UID, such as `A1B2C3D4`, and belongs to an active user. As written
      verification reports the card as not registered; read through `data`,
      it returns the user. */
  lemma VerifyCardAsWrittenMissesRegisteredCard(users: map<Id, User>, crypto: Crypto, userId: Id, cardData: string)
    requires userId in users && users[userId].isActive && IsValidCardUid(cardData)
    ensures var rows := [Credential(userId, Card, HashCardUid(crypto, cardData), true)];
      VerifyCardAsWritten(rows, crypto, {}, cardData) == Fail(CardNotRegistered)
      && VerifyCard(users, rows, crypto, {}, cardData) == Ok(userId)
  {
    var h := HashCardUid(crypto, cardData);
    var c := Credential(userId, Card, h, true);
    OneAndTwoCardRows(c, h);
  }

  /** The input that shows the non-atomic replacement, on the guards read
      through `data` (`RegisterRefusal`): a user whose one card row holds the
      hash of a valid UID, such as `A1B2C3D4`, registers the same card again
      while the delete fails. The guards pass, the handler ignores the failed
      delete and inserts a second row with the same hash, and the card that
      verified before now makes verification fail with 500. The defect is
      latent in the code as written, where `RegisterCardAsWritten` refuses
      every valid request before the delete is reached. */
  lemma RegisterWithFailedDeleteBreaksVerify(users: map<Id, User>, crypto: Crypto, userId: Id, cardData: string)
    requires userId in users && users[userId].isActive && IsValidCardUid(cardData)
    ensures var c := Credential(userId, Card, HashCardUid(crypto, cardData), true);
      RegisterRefusal(users, [c], crypto, {CardDelete}, userId, cardData) == None
      && VerifyCard(users, [c], crypto, {}, cardData) == Ok(userId)
      && !CardHashesUnique([c] + [c])
      && VerifyCard(users, [c] + [c], crypto, {}, cardData) == Fail(Internal)
  {
    var h := HashCardUid(crypto, cardData);
    var c := Credential(userId, Card, h, true);
    OneAndTwoCardRows(c, h);
    assert |CardHolders([c] + [c], h)| == 2;
  }

  /** The card holders of a table made of one or two copies of a card row. */
  lemma OneAndTwoCardRows(c: Credential, h: string)
    requires c.kind == Card && c.hash == h
    ensures CardHolders([c], h) == [c]
    ensures CardHolders([c] + [c], h) == [c, c]
  {
    var q := Query(None, Card, Some(h));
    assert Matches(q, c);
    assert [c][1..] == [];
    assert Select([c], q) == [c] + Select([], q);
    assert ([c] + [c])[0] == c && ([c] + [c])[1..] == [c];
    assert Select([c] + [c], q) == [c] + Select([c], q);
  }
}
