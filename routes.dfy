/** The request handlers of the current backend: registration of users and
    of counselors, login, the anonymous directory, messages and appointments. */
module Routes {
  import opened Request
  import opened Text
  import opened DateTime
  import opened Store
  import opened Api
  import opened Listing

  const MISSING_CREDENTIALS := "Missing username or password"
  const MISSING_COUNSELOR_FIELDS := "Missing fields (username, password, code required)"
  const USERNAME_TAKEN := "Username already exists"
  const INVALID_CODE := "Invalid counselor code"
  const USED_CODE := "Counselor code already used"
  const USER_REGISTERED := "User registered successfully"
  const COUNSELOR_REGISTERED := "Counselor registered successfully"
  const INVALID_CREDENTIALS := "Invalid credentials"
  const IDS_REQUIRED := "from_id and to_id are required"
  const MESSAGE_FIELDS_REQUIRED := "sender_id, receiver_id, and content are required"
  const MESSAGE_SENT := "Message sent"
  const APPOINTMENT_FIELDS_REQUIRED := "user_id, counselor_id, date, time are required"
  const INVALID_DATE_TIME := "Invalid date/time format"
  const COUNSELOR_NOT_FOUND := "Counselor not found"
  const NOT_A_COUNSELOR := "Selected user is not a counselor"
  const APPOINTMENT_REQUESTED := "Appointment requested"
  const MISSING_USER_ID := "Missing user_id parameter"
  const INVALID_STATUS := "Invalid status"
  const STATUS_UPDATED := "Appointment status updated"

  /** `(data.get(k) or "").strip()`. */
  function Trimmed(field: Option<string>): string
  {
    Strip(OrEmpty(field))
  }

  predicate CodeIssued(codes: seq<CounselorCode>, code: string)
  {
    exists i :: 0 <= i < |codes| && codes[i].code == code
  }

  predicate CodeSpent(codes: seq<CounselorCode>, code: string)
  {
    exists i :: 0 <= i < |codes| && codes[i].code == code && codes[i].isUsed
  }

  function Public(u: User): PublicUser
  {
    PublicUser(u.id, u.username, u.role)
  }

  /** The lookup functions answer the questions the contracts ask of the tables. */
  lemma LookupsAgree(users: seq<User>, nextId: int, codes: seq<CounselorCode>, name: string, code: string)
    requires UsersWellFormed(users, nextId) && CodesWellFormed(codes)
    ensures FindUserByName(users, name).Some? <==> NameTaken(users, name)
    ensures FindCode(codes, code).Some? <==> CodeIssued(codes, code)
    ensures FindCode(codes, code).Some? ==> (FindCode(codes, code).value.isUsed <==> CodeSpent(codes, code))
  {
    if FindCode(codes, code).Some? {
      var k :| 0 <= k < |codes| && codes[k] == FindCode(codes, code).value;
      assert forall j :: 0 <= j < |codes| && codes[j].code == code ==> j == k;
    }
  }

  /** An UPDATE by primary key touches exactly the row with that key. */
  lemma UpdateByIdTouchesOneRow(before: seq<CounselorCode>, after: seq<CounselorCode>, k: nat)
    requires CodesWellFormed(before) && k < |before| && |after| == |before|
    requires forall i :: 0 <= i < |after| ==>
               after[i] == if before[i].id == before[k].id then before[i].(isUsed := true) else before[i]
    ensures after == before[k := before[k].(isUsed := true)]
  {
  }

  /** Right after a row is appended with a fresh name, logging in with the
      name and password it was made from succeeds and shows that row. */
  lemma LoginFindsNewUser(db: Database, username: Option<string>, password: Option<string>)
    requires UsersWellFormed(db.users, db.nextUserId) && |db.users| > 0
    requires db.users[|db.users| - 1].username == Trimmed(username) && Trimmed(username) != []
    requires CheckPasswordHash(db.users[|db.users| - 1].password, Trimmed(password)) && Trimmed(password) != []
    ensures Login(db, username, password, NoFault) == Response(200, LoggedIn(Public(db.users[|db.users| - 1])))
  {
    FindUniqueName(db.users, db.nextUserId, |db.users| - 1);
  }

  // ---------------------------------------------------------------------
  // Registration
  // ---------------------------------------------------------------------

  /** POST /api/register_user. Store operations: 0 connect, 1 the username
      lookup, 2 the INSERT, 3 the commit. */
  method RegisterUser(db: Database, username: Option<string>, password: Option<string>, salt: nat, fault: Fault)
    returns (r: Response)
    requires db.Valid()
    modifies db
    ensures db.Valid()
    ensures db.codes == old(db.codes) && db.messages == old(db.messages) && db.appointments == old(db.appointments)
    ensures Trimmed(username) == [] || Trimmed(password) == [] ==> r == Response(400, ErrorText(MISSING_CREDENTIALS))
    ensures r.status == 500 ==> r == SERVER_ERROR && fault.RaisesAt?
    ensures fault == NoFault ==> r.status != 500
    ensures Trimmed(username) != [] && Trimmed(password) != [] ==>
              (r.status == 500 <==> Raises(fault, 0) || Raises(fault, 1)
                                    || (!NameTaken(old(db.users), Trimmed(username)) && (Raises(fault, 2) || Raises(fault, 3))))
    ensures Trimmed(username) != [] && Trimmed(password) != [] && r.status != 500 ==>
              r == if NameTaken(old(db.users), Trimmed(username)) then Response(409, ErrorText(USERNAME_TAKEN))
                   else Response(201, MessageText(USER_REGISTERED))
    ensures r.status != 201 ==> db.users == old(db.users)
    ensures r.status == 201 ==>
              db.users == old(db.users) + [User(old(db.nextUserId), Trimmed(username),
                                                GeneratePasswordHash(Trimmed(password), salt), ROLE_USER, old(db.clock))]
    ensures r.status == 201 ==>
              Login(db, username, password, NoFault) == Response(200, LoggedIn(PublicUser(old(db.nextUserId), Trimmed(username), ROLE_USER)))
  {
    var name, pass := Trimmed(username), Trimmed(password);
    if name == [] || pass == [] {
      return Response(400, ErrorText(MISSING_CREDENTIALS));
    }
    if Raises(fault, 0) || Raises(fault, 1) {
      return SERVER_ERROR;
    }
    LookupsAgree(db.users, db.nextUserId, db.codes, name, "");
    if FindUserByName(db.users, name).Some? {
      return Response(409, ErrorText(USERNAME_TAKEN));
    }
    var hashed := GeneratePasswordHash(pass, salt);
    var committed := InsertUserAndCommit(db, name, hashed, ROLE_USER, fault);
    if !committed {
      return SERVER_ERROR;
    }
    LoginFindsNewUser(db, username, password);
    r := Response(201, MessageText(USER_REGISTERED));
  }

  /** The write part of register_user: the INSERT (operation 2) and the
      commit (operation 3), with a rollback when either raises. */
  method InsertUserAndCommit(db: Database, name: string, hashed: Digest, role: string, fault: Fault)
    returns (committed: bool)
    requires db.Valid() && !NameTaken(db.users, name)
    modifies db
    ensures db.Valid()
    ensures db.codes == old(db.codes) && db.messages == old(db.messages) && db.appointments == old(db.appointments)
    ensures committed <==> !Raises(fault, 2) && !Raises(fault, 3)
    ensures !committed ==> db.users == old(db.users)
    ensures committed ==> db.users == old(db.users) + [User(old(db.nextUserId), name, hashed, role, old(db.clock))]
  {
    if Raises(fault, 2) {
      return false;
    }
    var before := db.Snapshot();
    var id := db.InsertUser(name, hashed, role);
    if Raises(fault, 3) {
      db.Rollback(before);
      return false;
    }
    return true;
  }

  /** POST /api/register_counselor. Store operations: 0 connect, 1 the code
      lookup, 2 the username lookup, 3 the INSERT into users, 4 the UPDATE of
      the code, 5 the commit. */
  method RegisterCounselor(db: Database, username: Option<string>, password: Option<string>, code: Option<string>,
                           salt: nat, fault: Fault)
    returns (r: Response)
    requires db.Valid()
    modifies db
    ensures db.Valid()
    ensures db.messages == old(db.messages) && db.appointments == old(db.appointments)
    ensures Trimmed(username) == [] || Trimmed(password) == [] || Trimmed(code) == [] ==>
              r == Response(400, ErrorText(MISSING_COUNSELOR_FIELDS))
    ensures r.status == 500 ==> r == SERVER_ERROR && fault.RaisesAt?
    ensures fault == NoFault ==> r.status != 500
    ensures Trimmed(username) != [] && Trimmed(password) != [] && Trimmed(code) != [] ==>
              (r.status == 500 <==> Raises(fault, 0) || Raises(fault, 1)
                                    || (CodeIssued(old(db.codes), Trimmed(code)) && !CodeSpent(old(db.codes), Trimmed(code))
                                        && (Raises(fault, 2)
                                            || (!NameTaken(old(db.users), Trimmed(username))
                                                && (Raises(fault, 3) || Raises(fault, 4) || Raises(fault, 5))))))
    ensures Trimmed(username) != [] && Trimmed(password) != [] && Trimmed(code) != [] && r.status != 500 ==>
              r == if !CodeIssued(old(db.codes), Trimmed(code)) then Response(400, ErrorText(INVALID_CODE))
                   else if CodeSpent(old(db.codes), Trimmed(code)) then Response(400, ErrorText(USED_CODE))
                   else if NameTaken(old(db.users), Trimmed(username)) then Response(409, ErrorText(USERNAME_TAKEN))
                   else Response(201, MessageText(COUNSELOR_REGISTERED))
    ensures r.status != 201 ==> db.users == old(db.users) && db.codes == old(db.codes)
    ensures r.status == 201 ==>
              db.users == old(db.users) + [User(old(db.nextUserId), Trimmed(username),
                                                GeneratePasswordHash(Trimmed(password), salt), ROLE_COUNSELOR, old(db.clock))]
    ensures r.status == 201 ==>
              exists k :: 0 <= k < |old(db.codes)| && old(db.codes)[k].code == Trimmed(code) && !old(db.codes)[k].isUsed
                          && db.codes == old(db.codes)[k := old(db.codes)[k].(isUsed := true)]
    ensures r.status == 201 ==>
              Login(db, username, password, NoFault)
                == Response(200, LoggedIn(PublicUser(old(db.nextUserId), Trimmed(username), ROLE_COUNSELOR)))
  {
    var name, pass, token := Trimmed(username), Trimmed(password), Trimmed(code);
    if name == [] || pass == [] || token == [] {
      return Response(400, ErrorText(MISSING_COUNSELOR_FIELDS));
    }
    if Raises(fault, 0) || Raises(fault, 1) {
      return SERVER_ERROR;
    }
    LookupsAgree(db.users, db.nextUserId, db.codes, name, token);
    var codeRow := FindCode(db.codes, token);
    if codeRow.None? {
      return Response(400, ErrorText(INVALID_CODE));
    }
    if codeRow.value.isUsed {
      return Response(400, ErrorText(USED_CODE));
    }
    if Raises(fault, 2) {
      return SERVER_ERROR;
    }
    if FindUserByName(db.users, name).Some? {
      return Response(409, ErrorText(USERNAME_TAKEN));
    }
    var hashed := GeneratePasswordHash(pass, salt);
    ghost var k :| 0 <= k < |db.codes| && db.codes[k] == codeRow.value;
    var committed := CreateCounselorAndCommit(db, name, hashed, codeRow.value.id, k, fault);
    if !committed {
      return SERVER_ERROR;
    }
    LoginFindsNewUser(db, username, password);
    r := Response(201, MessageText(COUNSELOR_REGISTERED));
  }

  /** The transaction of register_counselor: the INSERT of the account
      (operation 3) and the UPDATE of the code row found at index `k`
      (operation 4, by the row's id), committed together (operation 5) or, when any of them
      raises, rolled back together. */
  method CreateCounselorAndCommit(db: Database, name: string, hashed: Digest, codeId: int, ghost k: nat, fault: Fault)
    returns (committed: bool)
    requires db.Valid() && !NameTaken(db.users, name) && k < |db.codes| && db.codes[k].id == codeId
    modifies db
    ensures db.Valid()
    ensures db.messages == old(db.messages) && db.appointments == old(db.appointments)
    ensures committed <==> !Raises(fault, 3) && !Raises(fault, 4) && !Raises(fault, 5)
    ensures !committed ==> db.users == old(db.users) && db.codes == old(db.codes)
    ensures committed ==> db.users == old(db.users) + [User(old(db.nextUserId), name, hashed, ROLE_COUNSELOR, old(db.clock))]
    ensures committed ==> db.codes == old(db.codes)[k := old(db.codes)[k].(isUsed := true)]
  {
    if Raises(fault, 3) {
      return false;
    }
    var before := db.Snapshot();
    var id := db.InsertUser(name, hashed, ROLE_COUNSELOR);
    if Raises(fault, 4) {
      db.Rollback(before);
      return false;
    }
    db.MarkCodeUsedById(codeId);
    if Raises(fault, 5) {
      db.Rollback(before);
      return false;
    }
    UpdateByIdTouchesOneRow(before.codes, db.codes, k);
    return true;
  }

  // ---------------------------------------------------------------------
  // Login
  // ---------------------------------------------------------------------

  /** Both credentials are non-blank and the store answers the lookup. */
  predicate LoginReady(username: Option<string>, password: Option<string>, fault: Fault)
  {
    Trimmed(username) != [] && Trimmed(password) != [] && !Raises(fault, 0) && !Raises(fault, 1)
  }

  /** POST /api/login. Store operations: 0 connect, 1 the username lookup. */
  function Login(db: Database, username: Option<string>, password: Option<string>, fault: Fault): (r: Response)
    reads db
    ensures Trimmed(username) == [] || Trimmed(password) == [] ==> r == Response(400, ErrorText(MISSING_CREDENTIALS))
    ensures Trimmed(username) != [] && Trimmed(password) != [] ==> (r.status == 500 <==> Raises(fault, 0) || Raises(fault, 1))
    ensures r.status == 500 ==> r == SERVER_ERROR
    ensures LoginReady(username, password, fault) ==> r.status == 200 || r.status == 401
    ensures r.status == 401 ==> r == Response(401, ErrorText(INVALID_CREDENTIALS))
    ensures r.status == 200 ==>
              exists i :: 0 <= i < |db.users| && db.users[i].username == Trimmed(username)
                          && CheckPasswordHash(db.users[i].password, Trimmed(password))
                          && r.body == LoggedIn(Public(db.users[i]))
    ensures LoginReady(username, password, fault) && !NameTaken(db.users, Trimmed(username)) ==> r.status == 401
    ensures LoginReady(username, password, fault) && UsersWellFormed(db.users, db.nextUserId) ==>
              (r.status == 200 <==>
                 exists i :: 0 <= i < |db.users| && db.users[i].username == Trimmed(username)
                             && CheckPasswordHash(db.users[i].password, Trimmed(password)))
  {
    var name, pass := Trimmed(username), Trimmed(password);
    if name == [] || pass == [] then
      Response(400, ErrorText(MISSING_CREDENTIALS))
    else if Raises(fault, 0) || Raises(fault, 1) then
      SERVER_ERROR
    else
      match FindUserByName(db.users, name)
      case None => Response(401, ErrorText(INVALID_CREDENTIALS))
      case Some(user) =>
        if !CheckPasswordHash(user.password, pass) then Response(401, ErrorText(INVALID_CREDENTIALS))
        else Response(200, LoggedIn(Public(user)))
  }

  // ---------------------------------------------------------------------
  // Directory
  // ---------------------------------------------------------------------

  /** GET /api/users. Store operations: 0 connect, 1 the SELECT. The rows
      come back in the order the table holds them. */
  method ListUsers(db: Database, excludeId: Option<int>, fault: Fault) returns (r: Response)
    ensures r.status == 500 <==> Raises(fault, 0) || Raises(fault, 1)
    ensures r.status == 500 ==> r == SERVER_ERROR
    ensures r.status != 500 ==> r == Response(200, UserList(Directory(db.users, excludeId)))
  {
    if Raises(fault, 0) || Raises(fault, 1) {
      return SERVER_ERROR;
    }
    var rows := db.users;
    var result: seq<DirectoryEntry> := [];
    for i := 0 to |rows|
      invariant result == Directory(rows[..i], excludeId)
    {
      assert rows[..i + 1][..i] == rows[..i];
      var row := rows[i];
      if !(HasId(excludeId) && row.id == excludeId.value) {
        var alias := if row.role == ROLE_COUNSELOR then "Counselor" + IntToString(row.id)
                     else "Anonymous" + IntToString(row.id);
        result := result + [DirectoryEntry(row.id, alias, row.role)];
      }
    }
    assert rows[..|rows|] == rows;
    return Response(200, UserList(result));
  }

  // ---------------------------------------------------------------------
  // Messages
  // ---------------------------------------------------------------------

  /** GET /api/messages. Store operations: 0 connect, 1 the SELECT. */
  function GetMessages(db: Database, fromId: Option<int>, toId: Option<int>, fault: Fault): (r: Response)
    reads db
    ensures !HasId(fromId) || !HasId(toId) ==> r == Response(400, MessageText(IDS_REQUIRED))
    ensures HasId(fromId) && HasId(toId) ==> (r.status == 500 <==> Raises(fault, 0) || Raises(fault, 1))
    ensures r.status == 500 ==> r == SERVER_ERROR
    ensures r.status != 400 && r.status != 500 ==>
              && r.status == 200 && HasId(fromId) && HasId(toId) && r.body.MessageList?
              && (forall m :: m in r.body.messages <==> m in db.messages && Between(m, fromId.value, toId.value))
              && (Chronological(db.messages) ==> Chronological(r.body.messages))
  {
    if !HasId(fromId) || !HasId(toId) then
      Response(400, MessageText(IDS_REQUIRED))
    else if Raises(fault, 0) || Raises(fault, 1) then
      SERVER_ERROR
    else
      ConversationMembers(db.messages, fromId.value, toId.value);
      // Both branches answer alike; the first only brings in the order lemma.
      if Chronological(db.messages) then
        ConversationChronological(db.messages, fromId.value, toId.value);
        Response(200, MessageList(Conversation(db.messages, fromId.value, toId.value)))
      else
        Response(200, MessageList(Conversation(db.messages, fromId.value, toId.value)))
  }

  /** Swapping `from_id` and `to_id` gives the same answer. */
  lemma GetMessagesSymmetric(db: Database, a: Option<int>, b: Option<int>, fault: Fault)
    ensures GetMessages(db, a, b, fault) == GetMessages(db, b, a, fault)
  {
    if HasId(a) && HasId(b) {
      ConversationSymmetric(db.messages, a.value, b.value);
    }
  }

  /** The history returned is the one list of the two parties' messages in
      timestamp order: any chronological list of exactly those messages is it. */
  lemma GetMessagesDetermined(db: Database, a: Option<int>, b: Option<int>, fault: Fault, expected: seq<Message>)
    requires db.Valid() && GetMessages(db, a, b, fault).status == 200
    requires Chronological(expected)
    requires forall m :: m in expected <==> m in db.messages && Between(m, a.value, b.value)
    ensures GetMessages(db, a, b, fault).body.messages == expected
  {
    assert Chronological(db.messages);
    ChronologicalUnique(GetMessages(db, a, b, fault).body.messages, expected);
  }

  /** With both ids given and the store answering, the list returned is the
      conversation the table holds. */
  lemma GetMessagesBody(db: Database, a: Option<int>, b: Option<int>)
    requires HasId(a) && HasId(b)
    ensures GetMessages(db, a, b, NoFault).body.messages == Conversation(db.messages, a.value, b.value)
  {
  }

  /** POST /api/messages. Store operations: 0 connect, 1 the INSERT, 2 the
      commit. */
  method PostMessage(db: Database, senderId: Option<int>, receiverId: Option<int>, content: Option<string>,
                     isPeerSupport: Option<bool>, fault: Fault)
    returns (r: Response)
    requires db.Valid()
    modifies db
    ensures db.Valid()
    ensures db.users == old(db.users) && db.codes == old(db.codes) && db.appointments == old(db.appointments)
    ensures !HasId(senderId) || !HasId(receiverId) || Trimmed(content) == [] ==>
              r == Response(400, MessageText(MESSAGE_FIELDS_REQUIRED))
    ensures HasId(senderId) && HasId(receiverId) && Trimmed(content) != [] ==>
              r == if Raises(fault, 0) || Raises(fault, 1) || Raises(fault, 2) then SERVER_ERROR
                   else Response(201, MessageText(MESSAGE_SENT))
    ensures r.status != 201 ==> db.messages == old(db.messages)
    ensures r.status == 201 ==>
              db.messages == old(db.messages) + [Message(old(db.nextMessageId), senderId.value, receiverId.value,
                                                         Trimmed(content), old(db.clock), OrFalse(isPeerSupport))]
    ensures r.status == 201 ==>
              Conversation(db.messages, senderId.value, receiverId.value)
                == Conversation(old(db.messages), senderId.value, receiverId.value) + [db.messages[|db.messages| - 1]]
    ensures r.status == 201 ==>
              Conversation(db.messages, receiverId.value, senderId.value)
                == Conversation(old(db.messages), receiverId.value, senderId.value) + [db.messages[|db.messages| - 1]]
  {
    var text := Trimmed(content);
    var peer := OrFalse(isPeerSupport);
    if !HasId(senderId) || !HasId(receiverId) || text == [] {
      return Response(400, MessageText(MESSAGE_FIELDS_REQUIRED));
    }
    if Raises(fault, 0) {
      return SERVER_ERROR;
    }
    ghost var before := db.messages;
    var committed := InsertMessageAndCommit(db, senderId.value, receiverId.value, text, peer, fault);
    if !committed {
      return SERVER_ERROR;
    }
    ConversationAppend(before, db.messages[|db.messages| - 1], senderId.value, receiverId.value);
    ConversationAppend(before, db.messages[|db.messages| - 1], receiverId.value, senderId.value);
    r := Response(201, MessageText(MESSAGE_SENT));
  }

  /** The write part of post_message: the INSERT (operation 1) and the commit
      (operation 2), with a rollback when the commit raises. */
  method InsertMessageAndCommit(db: Database, senderId: int, receiverId: int, content: string, isPeerSupport: bool,
                                fault: Fault)
    returns (committed: bool)
    requires db.Valid()
    modifies db
    ensures db.Valid()
    ensures db.users == old(db.users) && db.codes == old(db.codes) && db.appointments == old(db.appointments)
    ensures committed <==> !Raises(fault, 1) && !Raises(fault, 2)
    ensures !committed ==> db.messages == old(db.messages)
    ensures committed ==>
              db.messages == old(db.messages) + [Message(old(db.nextMessageId), senderId, receiverId, content,
                                                         old(db.clock), isPeerSupport)]
  {
    if Raises(fault, 1) {
      return false;
    }
    var before := db.Snapshot();
    var m := db.InsertMessage(senderId, receiverId, content, isPeerSupport);
    if Raises(fault, 2) {
      db.Rollback(before);
      return false;
    }
    return true;
  }

  // ---------------------------------------------------------------------
  // Appointments
  // ---------------------------------------------------------------------

  /** Some row with this id has the counselor role. */
  predicate IsCounselor(users: seq<User>, id: int)
  {
    exists i :: 0 <= i < |users| && users[i].id == id && users[i].role == ROLE_COUNSELOR
  }

  /** What the role lookup by id tells about the account. */
  lemma RoleLookup(users: seq<User>, nextId: int, id: int)
    requires UsersWellFormed(users, nextId)
    ensures FindUserById(users, id).None? <==> !IdTaken(users, id)
    ensures FindUserById(users, id).Some? ==> (FindUserById(users, id).value.role == ROLE_COUNSELOR <==> IsCounselor(users, id))
  {
    if IsCounselor(users, id) {
      var i :| 0 <= i < |users| && users[i].id == id && users[i].role == ROLE_COUNSELOR;
      FindUniqueId(users, nextId, i);
    }
  }

  /** The fields create_appointment requires are present. */
  predicate AppointmentFieldsGiven(userId: Option<int>, counselorId: Option<int>, date: Option<string>, time: Option<string>)
  {
    HasId(userId) && HasId(counselorId) && HasText(date) && HasText(time)
  }

  /** POST /api/appointments. Store operations: 0 connect, 1 the role
      lookup, 2 the INSERT, 3 the commit. */
  method CreateAppointment(db: Database, userId: Option<int>, counselorId: Option<int>,
                           date: Option<string>, time: Option<string>, fault: Fault)
    returns (r: Response)
    requires db.Valid()
    modifies db
    ensures db.Valid()
    ensures db.users == old(db.users) && db.codes == old(db.codes) && db.messages == old(db.messages)
    ensures !AppointmentFieldsGiven(userId, counselorId, date, time) ==>
              r == Response(400, MessageText(APPOINTMENT_FIELDS_REQUIRED))
    ensures AppointmentFieldsGiven(userId, counselorId, date, time)
            && (ParseDate(date.value).None? || ParseTime(time.value).None?) ==>
              r == Response(400, MessageText(INVALID_DATE_TIME))
    ensures r.status == 500 ==> r == SERVER_ERROR && fault.RaisesAt?
    ensures fault == NoFault ==> r.status != 500
    ensures AppointmentFieldsGiven(userId, counselorId, date, time)
            && ParseDate(date.value).Some? && ParseTime(time.value).Some? ==>
              (r.status == 500 <==> Raises(fault, 0) || Raises(fault, 1)
                                    || (IsCounselor(old(db.users), counselorId.value) && (Raises(fault, 2) || Raises(fault, 3))))
    ensures AppointmentFieldsGiven(userId, counselorId, date, time)
            && ParseDate(date.value).Some? && ParseTime(time.value).Some? && r.status != 500 ==>
              r == if !IdTaken(old(db.users), counselorId.value) then Response(404, MessageText(COUNSELOR_NOT_FOUND))
                   else if !IsCounselor(old(db.users), counselorId.value) then Response(400, MessageText(NOT_A_COUNSELOR))
                   else Response(201, MessageText(APPOINTMENT_REQUESTED))
    ensures r.status != 201 ==> db.appointments == old(db.appointments)
    ensures r.status == 201 ==>
              db.appointments == old(db.appointments)
                                 + [Appointment(old(db.nextAppointmentId), userId.value, counselorId.value,
                                                ParseDate(date.value).value, ParseTime(time.value).value, STATUS_PENDING)]
  {
    if !AppointmentFieldsGiven(userId, counselorId, date, time) {
      return Response(400, MessageText(APPOINTMENT_FIELDS_REQUIRED));
    }
    var day, clock := ParseDate(date.value), ParseTime(time.value);
    if day.None? || clock.None? {
      return Response(400, MessageText(INVALID_DATE_TIME));
    }
    if Raises(fault, 0) || Raises(fault, 1) {
      return SERVER_ERROR;
    }
    RoleLookup(db.users, db.nextUserId, counselorId.value);
    var row := FindUserById(db.users, counselorId.value);
    if row.None? {
      return Response(404, MessageText(COUNSELOR_NOT_FOUND));
    }
    if row.value.role != ROLE_COUNSELOR {
      return Response(400, MessageText(NOT_A_COUNSELOR));
    }
    if Raises(fault, 2) {
      return SERVER_ERROR;
    }
    var before := db.Snapshot();
    var a := db.InsertAppointment(userId.value, counselorId.value, day.value, clock.value);
    if Raises(fault, 3) {
      db.Rollback(before);
      return SERVER_ERROR;
    }
    r := Response(201, MessageText(APPOINTMENT_REQUESTED));
  }

  /** The rows get_appointments selects for `key`, in the order it lists them. */
  function Listed(db: Database, key: int): seq<Booking>
    reads db
  {
    NewestFirst(Joined(db.appointments, db.users, key))
  }

  /** GET /api/appointments. Store operations: 0 connect, 1 the SELECT;
      nothing catches their exceptions. */
  method GetAppointments(db: Database, userId: Option<string>, fault: Fault) returns (r: Response)
    ensures !HasText(userId) ==> r == Response(400, ErrorText(MISSING_USER_ID))
    ensures HasText(userId) ==> (r.status == 500 <==> Raises(fault, 0) || Raises(fault, 1))
    ensures r.status == 500 ==> r == UNCAUGHT
    ensures r.status != 400 && r.status != 500 ==>
              && r.status == 200 && HasText(userId) && r.body.AppointmentList?
              && var rows := Listed(db, SqlInt(userId.value));
                 && |r.body.appointments| == |rows|
                 && forall i :: 0 <= i < |rows| ==> r.body.appointments[i] == Render(rows[i])
  {
    if !HasText(userId) {
      return Response(400, ErrorText(MISSING_USER_ID));
    }
    if Raises(fault, 0) || Raises(fault, 1) {
      return UNCAUGHT;
    }
    var results := Listed(db, SqlInt(userId.value));
    var views := RenderAll(results);
    return Response(200, AppointmentList(views));
  }

  /** The loop of get_appointments that turns each row's DATE and TIME
      values into text, row by row. */
  method RenderAll(results: seq<Booking>) returns (views: seq<AppointmentView>)
    ensures |views| == |results|
    ensures forall i :: 0 <= i < |results| ==> views[i] == Render(results[i])
  {
    views := [];
    for i := 0 to |results|
      invariant |views| == i
      invariant forall k :: 0 <= k < i ==> views[k] == Render(results[k])
    {
      views := views + [Render(results[i])];
    }
  }

  /** The appointment list is ordered newest first, holds each joined row
      of the requester once per time the join yields it, and shows dates and
      times that read back as the stored ones. */
  lemma ListedCorrect(db: Database, key: int)
    requires db.Valid()
    ensures NewestFirstOrder(Listed(db, key))
    ensures multiset(Listed(db, key)) == multiset(Joined(db.appointments, db.users, key))
    ensures forall b :: b in Listed(db, key) ==>
              && ParseDate(Render(b).date) == Some(b.appointment.date)
              && ParseTime(Render(b).time) == Some(b.appointment.time)
              && b.appointment in db.appointments && Involves(b.appointment, key)
  {
    var joined := Joined(db.appointments, db.users, key);
    NewestFirstCorrect(joined);
    JoinedMembers(db.appointments, db.users, key);
    forall b | b in Listed(db, key)
      ensures ParseDate(Render(b).date) == Some(b.appointment.date)
      ensures ParseTime(Render(b).time) == Some(b.appointment.time)
      ensures b.appointment in db.appointments && Involves(b.appointment, key)
    {
      assert b in multiset(joined);
      var i :| 0 <= i < |db.appointments| && db.appointments[i] == b.appointment;
      RenderRoundTrip(b);
    }
  }

  /** UPDATE by primary key: the row with that id, if any, takes the new
      status and every other row stays as it was. */
  lemma SetStatusTouchesOneRow(before: seq<Appointment>, after: seq<Appointment>, id: int, status: string)
    requires forall i, j :: 0 <= i < j < |before| ==> before[i].id < before[j].id
    requires |after| == |before|
    requires forall i :: 0 <= i < |after| ==>
               after[i] == if before[i].id == id then before[i].(status := status) else before[i]
    ensures (forall i :: 0 <= i < |before| ==> before[i].id != id) ==> after == before
    ensures forall k :: 0 <= k < |before| && before[k].id == id ==> after == before[k := before[k].(status := status)]
  {
  }

  /** PUT /api/appointments/<id>/status. Store operations: 0 connect, 1 the
      UPDATE, 2 the commit. */
  method UpdateAppointmentStatus(db: Database, apptId: nat, status: Option<string>, fault: Fault)
    returns (r: Response)
    requires db.Valid()
    modifies db
    ensures db.Valid()
    ensures db.users == old(db.users) && db.codes == old(db.codes) && db.messages == old(db.messages)
    ensures !(HasText(status) && IsKnownStatus(status.value)) ==> r == Response(400, MessageText(INVALID_STATUS))
    ensures HasText(status) && IsKnownStatus(status.value) ==>
              r == if Raises(fault, 0) || Raises(fault, 1) || Raises(fault, 2) then SERVER_ERROR
                   else Response(200, MessageText(STATUS_UPDATED))
    ensures r.status != 200 ==> db.appointments == old(db.appointments)
    ensures r.status == 200 && (forall i :: 0 <= i < |old(db.appointments)| ==> old(db.appointments)[i].id != apptId) ==>
              db.appointments == old(db.appointments)
    ensures r.status == 200 ==>
              forall k :: 0 <= k < |old(db.appointments)| && old(db.appointments)[k].id == apptId ==>
                db.appointments == old(db.appointments)[k := old(db.appointments)[k].(status := status.value)]
  {
    if !HasText(status) || !IsKnownStatus(status.value) {
      return Response(400, MessageText(INVALID_STATUS));
    }
    if Raises(fault, 0) || Raises(fault, 1) {
      return SERVER_ERROR;
    }
    var before := db.Snapshot();
    db.SetAppointmentStatus(apptId, status.value);
    if Raises(fault, 2) {
      db.Rollback(before);
      return SERVER_ERROR;
    }
    SetStatusTouchesOneRow(before.appointments, db.appointments, apptId, status.value);
    r := Response(200, MessageText(STATUS_UPDATED));
  }
}
