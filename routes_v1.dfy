/** The request handlers of the first working version of the backend: one
    registration endpoint where an optional counselor code decides the
    role, and a login that answers with the role. Neither handler catches
    exceptions, and neither strips its inputs. */
module RoutesV1 {
  import opened Request
  import opened Store
  import opened Api

  const USERNAME_EXISTS := "Username already exists"
  const BAD_CODE := "Invalid or already used counselor code"
  const INVALID_CREDENTIALS := "Invalid credentials"

  /** `SELECT * FROM counselor_codes WHERE code=%s AND is_used=0` finds a row. */
  predicate UnusedCodeIssued(codes: seq<CounselorCode>, code: string)
  {
    exists i :: 0 <= i < |codes| && codes[i].code == code && !codes[i].isUsed
  }

  /** The role register gives: "counselor" when a code is supplied at all. */
  function RoleFor(counselorCode: Option<string>): string
  {
    if HasText(counselorCode) then ROLE_COUNSELOR else ROLE_USER
  }

  /** With unique codes, FindCode answers the question of the code query. */
  lemma UnusedCodeLookup(codes: seq<CounselorCode>, code: string)
    requires CodesWellFormed(codes)
    ensures (FindCode(codes, code).Some? && !FindCode(codes, code).value.isUsed) <==> UnusedCodeIssued(codes, code)
  {
    if UnusedCodeIssued(codes, code) {
      var i :| 0 <= i < |codes| && codes[i].code == code && !codes[i].isUsed;
      FindUniqueCode(codes, i);
    }
  }

  /** An UPDATE keyed on a UNIQUE column touches exactly the row with that key. */
  lemma UpdateByCodeTouchesOneRow(before: seq<CounselorCode>, after: seq<CounselorCode>, k: nat)
    requires CodesWellFormed(before) && k < |before| && |after| == |before|
    requires forall i :: 0 <= i < |after| ==>
               after[i] == if before[i].code == before[k].code then before[i].(isUsed := true) else before[i]
    ensures after == before[k := before[k].(isUsed := true)]
  {
  }

  /** POST /api/register. Store operations: 0 connect, 1 the username
      lookup, 2 the code lookup, 3 the UPDATE of the code, 4 the INSERT, 5
      the commit; 2 and 3 happen only when a code is supplied. An exception
      escapes the handler and the uncommitted work is discarded with the
      connection. */
  method Register(db: Database, username: string, password: string, counselorCode: Option<string>,
                  salt: nat, fault: Fault)
    returns (r: Response)
    requires db.Valid()
    modifies db
    ensures db.Valid()
    ensures db.messages == old(db.messages) && db.appointments == old(db.appointments)
    ensures r.status == 500 ==> r == UNCAUGHT && fault.RaisesAt?
    ensures fault == NoFault ==> r.status != 500
    ensures r.status == 500 <==>
              Raises(fault, 0) || Raises(fault, 1)
              || (!NameTaken(old(db.users), username)
                  && ((HasText(counselorCode) && Raises(fault, 2))
                      || ((!HasText(counselorCode) || UnusedCodeIssued(old(db.codes), counselorCode.value))
                          && ((HasText(counselorCode) && Raises(fault, 3)) || Raises(fault, 4) || Raises(fault, 5)))))
    ensures r.status != 500 ==>
              r == if NameTaken(old(db.users), username) then Response(400, MessageText(USERNAME_EXISTS))
                   else if HasText(counselorCode) && !UnusedCodeIssued(old(db.codes), counselorCode.value)
                   then Response(400, MessageText(BAD_CODE))
                   else Response(201, Registered(RoleFor(counselorCode)))
    ensures r.status != 201 ==> db.users == old(db.users) && db.codes == old(db.codes)
    ensures r.status == 201 ==>
              db.users == old(db.users) + [User(old(db.nextUserId), username, GeneratePasswordHash(password, salt),
                                                RoleFor(counselorCode), old(db.clock))]
    ensures r.status == 201 && !HasText(counselorCode) ==> db.codes == old(db.codes)
    ensures r.status == 201 && HasText(counselorCode) ==>
              exists k :: 0 <= k < |old(db.codes)| && old(db.codes)[k].code == counselorCode.value && !old(db.codes)[k].isUsed
                          && db.codes == old(db.codes)[k := old(db.codes)[k].(isUsed := true)]
    ensures r.status == 201 ==> Login(db, username, password, NoFault) == Response(200, LoggedInAs(RoleFor(counselorCode)))
  {
    if Raises(fault, 0) || Raises(fault, 1) {
      return UNCAUGHT;
    }
    if FindUserByName(db.users, username).Some? {
      return Response(400, MessageText(USERNAME_EXISTS));
    }
    ghost var k := 0;
    if HasText(counselorCode) {
      if Raises(fault, 2) {
        return UNCAUGHT;
      }
      UnusedCodeLookup(db.codes, counselorCode.value);
      var codeRow := FindCode(db.codes, counselorCode.value);
      if codeRow.None? || codeRow.value.isUsed {
        return Response(400, MessageText(BAD_CODE));
      }
      k :| 0 <= k < |db.codes| && db.codes[k] == codeRow.value;
    }
    var hashed := GeneratePasswordHash(password, salt);
    var committed := RegisterWrites(db, username, hashed, counselorCode, k, fault);
    if !committed {
      return UNCAUGHT;
    }
    LoginFindsNewUser(db, username, password);
    r := Response(201, Registered(RoleFor(counselorCode)));
  }

  /** The writes of register: the UPDATE of the code row at index `k` when a
      code is supplied (operation 3), the INSERT (operation 4) and the commit
      (operation 5). When any of them raises, none of them is kept. */
  method RegisterWrites(db: Database, name: string, hashed: Digest, counselorCode: Option<string>,
                        ghost k: nat, fault: Fault)
    returns (committed: bool)
    requires db.Valid()
    requires !NameTaken(db.users, name)
    requires HasText(counselorCode) ==> k < |db.codes| && db.codes[k].code == counselorCode.value
    modifies db
    ensures db.Valid()
    ensures db.messages == old(db.messages) && db.appointments == old(db.appointments)
    ensures committed <==> !Raises(fault, 4) && !Raises(fault, 5) && (HasText(counselorCode) ==> !Raises(fault, 3))
    ensures !committed ==> db.users == old(db.users) && db.codes == old(db.codes)
    ensures committed ==> db.users == old(db.users) + [User(old(db.nextUserId), name, hashed, RoleFor(counselorCode), old(db.clock))]
    ensures committed && !HasText(counselorCode) ==> db.codes == old(db.codes)
    ensures committed && HasText(counselorCode) ==> db.codes == old(db.codes)[k := old(db.codes)[k].(isUsed := true)]
  {
    var before := db.Snapshot();
    if HasText(counselorCode) {
      if Raises(fault, 3) {
        return false;
      }
      db.MarkCodeUsedByCode(counselorCode.value);
      UpdateByCodeTouchesOneRow(before.codes, db.codes, k);
    }
    if Raises(fault, 4) {
      db.Rollback(before);
      return false;
    }
    var id := db.InsertUser(name, hashed, RoleFor(counselorCode));
    if Raises(fault, 5) {
      db.Rollback(before);
      return false;
    }
    return true;
  }

  /** The account appended last logs in with its own name and password. */
  lemma LoginFindsNewUser(db: Database, username: string, password: string)
    requires UsersWellFormed(db.users, db.nextUserId) && |db.users| > 0
    requires db.users[|db.users| - 1].username == username
    requires CheckPasswordHash(db.users[|db.users| - 1].password, password)
    ensures Login(db, username, password, NoFault) == Response(200, LoggedInAs(db.users[|db.users| - 1].role))
  {
    FindUniqueName(db.users, db.nextUserId, |db.users| - 1);
  }

  /** POST /api/login. Store operations: 0 connect, 1 the username lookup;
      nothing catches their exceptions. */
  function Login(db: Database, username: string, password: string, fault: Fault): (r: Response)
    reads db
    ensures r.status == 500 <==> Raises(fault, 0) || Raises(fault, 1)
    ensures r.status == 500 ==> r == UNCAUGHT
    ensures r.status != 500 ==> r.status == 200 || r == Response(401, MessageText(INVALID_CREDENTIALS))
    ensures r.status == 200 ==>
              exists i :: 0 <= i < |db.users| && db.users[i].username == username
                          && CheckPasswordHash(db.users[i].password, password)
                          && r.body == LoggedInAs(db.users[i].role)
    ensures r.status != 500 && UsersWellFormed(db.users, db.nextUserId) ==>
              (r.status == 200 <==>
                 exists i :: 0 <= i < |db.users| && db.users[i].username == username
                             && CheckPasswordHash(db.users[i].password, password))
  {
    if Raises(fault, 0) || Raises(fault, 1) then
      UNCAUGHT
    else
      match FindUserByName(db.users, username)
      case None => Response(401, MessageText(INVALID_CREDENTIALS))
      case Some(user) =>
        if !CheckPasswordHash(user.password, password) then Response(401, MessageText(INVALID_CREDENTIALS))
        else Response(200, LoggedInAs(user.role))
  }
}
