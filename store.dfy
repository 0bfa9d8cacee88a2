/** The relational store the handlers talk to: the rows of the four tables
    `users`, `counselor_codes`, `messages` and `appointments`, held in memory
    by one object, with the statements the handlers issue as its methods. */
module Store {
  import opened Request
  import opened DateTime

  const ROLE_USER := "user"
  const ROLE_COUNSELOR := "counselor"
  const STATUS_PENDING := "pending"

  /** The four appointment statuses update_appointment_status accepts. */
  predicate IsKnownStatus(s: string)
  {
    s == "pending" || s == "approved" || s == "completed" || s == "cancelled"
  }

  /** A salted password digest. The salt is the hashing routine's random
      input; nothing outside CheckPasswordHash looks at the key. */
  datatype Digest = Digest(salt: nat, key: string)

  /** `check_password_hash(digest, password)`. */
  predicate CheckPasswordHash(digest: Digest, password: string)
  {
    digest.key == password
  }

  /** `generate_password_hash(password)`, with its random salt as a parameter:
      the one property the handlers rely on is that the digest verifies
      against the password it was made from. */
  function GeneratePasswordHash(password: string, salt: nat): (d: Digest)
    ensures CheckPasswordHash(d, password)
    ensures d.salt == salt
  {
    Digest(salt, password)
  }

  datatype User = User(id: int, username: string, password: Digest, role: string, createdAt: nat)

  datatype CounselorCode = CounselorCode(id: int, code: string, isUsed: bool)

  datatype Message = Message(id: int, senderId: int, receiverId: int, content: string, timestamp: nat, isPeerSupport: bool)

  datatype Appointment = Appointment(id: int, userId: int, counselorId: int, date: Date, time: Time, status: string)

  /** The contents of the four tables at one moment. */
  datatype Tables = Tables(users: seq<User>, codes: seq<CounselorCode>, messages: seq<Message>, appointments: seq<Appointment>)

  /** Where, if anywhere, the database raises while a handler runs. A
      handler's store operations are numbered in the order it issues them:
      0 is opening the connection, then each statement, then the commit. */
  datatype Fault = NoFault | RaisesAt(step: nat)

  predicate Raises(f: Fault, step: nat)
  {
    f == RaisesAt(step)
  }

  /** The store's own guarantees about `users`: ids come from AUTO_INCREMENT
      (positive, below the next one to hand out, increasing in row order)
      and `username` is UNIQUE. */
  predicate UsersWellFormed(users: seq<User>, nextId: int)
  {
    && 1 <= nextId
    && (forall i :: 0 <= i < |users| ==> 1 <= users[i].id < nextId)
    && (forall i, j :: 0 <= i < j < |users| ==> users[i].id < users[j].id && users[i].username != users[j].username)
  }

  /** `counselor_codes`: the id is the primary key and `code` is UNIQUE. */
  predicate CodesWellFormed(codes: seq<CounselorCode>)
  {
    forall i, j :: 0 <= i < j < |codes| ==> codes[i].id != codes[j].id && codes[i].code != codes[j].code
  }

  /** `messages`: AUTO_INCREMENT ids and a timestamp taken from a clock that
      ticks at every insert, so row order is timestamp order. */
  predicate MessagesWellFormed(messages: seq<Message>, nextId: int, clock: nat)
  {
    && 1 <= nextId
    && (forall i :: 0 <= i < |messages| ==> 1 <= messages[i].id < nextId && messages[i].timestamp < clock)
    && (forall i, j :: 0 <= i < j < |messages| ==> messages[i].id < messages[j].id && messages[i].timestamp < messages[j].timestamp)
  }

  /** `appointments`: AUTO_INCREMENT ids, DATE and TIME columns holding real
      dates and times of day, and a status among the four known ones. */
  predicate AppointmentsWellFormed(appointments: seq<Appointment>, nextId: int)
  {
    && 1 <= nextId
    && (forall i :: 0 <= i < |appointments| ==>
          && 1 <= appointments[i].id < nextId
          && ValidDate(appointments[i].date) && ValidTime(appointments[i].time)
          && IsKnownStatus(appointments[i].status))
    && (forall i, j :: 0 <= i < j < |appointments| ==> appointments[i].id < appointments[j].id)
  }

  /** Some row of `users` has this username. */
  predicate NameTaken(users: seq<User>, name: string)
  {
    exists i :: 0 <= i < |users| && users[i].username == name
  }

  /** `SELECT ... FROM users WHERE username = %s` followed by `fetchone()`:
      the first row with that name, or nothing. */
  function FindUserByName(users: seq<User>, name: string): (r: Option<User>)
    ensures r.None? <==> forall i :: 0 <= i < |users| ==> users[i].username != name
    ensures r.Some? ==> exists i :: 0 <= i < |users| && users[i] == r.value && users[i].username == name
                                    && forall k :: 0 <= k < i ==> users[k].username != name
  {
    if users == [] then None
    else if users[0].username == name then Some(users[0])
    else
      var r := FindUserByName(users[1..], name);
      assert r.Some? ==> exists i :: 1 <= i < |users| && users[i] == r.value && users[i].username == name
                                    && forall k :: 0 <= k < i ==> users[k].username != name by {
        if r.Some? {
          var j :| 0 <= j < |users| - 1 && users[1..][j] == r.value && users[1..][j].username == name
                   && forall k :: 0 <= k < j ==> users[1..][k].username != name;
          assert forall k :: 0 <= k < j + 1 ==> users[k].username != name by {
            forall k | 0 <= k < j + 1 ensures users[k].username != name {
              if k > 0 { assert users[k] == users[1..][k - 1]; }
            }
          }
        }
      }
      r
  }

  /** `SELECT role FROM users WHERE id = %s` followed by `fetchone()`. */
  function FindUserById(users: seq<User>, id: int): (r: Option<User>)
    ensures r.None? <==> forall i :: 0 <= i < |users| ==> users[i].id != id
    ensures r.Some? ==> r.value in users && r.value.id == id
  {
    if users == [] then None
    else if users[0].id == id then Some(users[0])
    else FindUserById(users[1..], id)
  }

  /** `SELECT id, is_used FROM counselor_codes WHERE code = %s` followed by
      `fetchone()`. */
  function FindCode(codes: seq<CounselorCode>, code: string): (r: Option<CounselorCode>)
    ensures r.None? <==> forall i :: 0 <= i < |codes| ==> codes[i].code != code
    ensures r.Some? ==> r.value in codes && r.value.code == code
  {
    if codes == [] then None
    else if codes[0].code == code then Some(codes[0])
    else FindCode(codes[1..], code)
  }

  /** With unique names, the row FindUserByName returns is the one row with
      that name. */
  lemma FindUniqueName(users: seq<User>, nextId: int, i: nat)
    requires UsersWellFormed(users, nextId) && i < |users|
    ensures FindUserByName(users, users[i].username) == Some(users[i])
  {
  }

  /** With unique ids, the row FindUserById returns is the one row with that id. */
  lemma FindUniqueId(users: seq<User>, nextId: int, i: nat)
    requires UsersWellFormed(users, nextId) && i < |users|
    ensures FindUserById(users, users[i].id) == Some(users[i])
  {
    if i > 0 {
      assert users[1..][i - 1] == users[i];
      FindUniqueId(users[1..], nextId, i - 1);
    }
  }

  /** With unique codes, the row FindCode returns is the one row with that code. */
  lemma FindUniqueCode(codes: seq<CounselorCode>, i: nat)
    requires CodesWellFormed(codes) && i < |codes|
    ensures FindCode(codes, codes[i].code) == Some(codes[i])
  {
    if i > 0 {
      assert codes[1..][i - 1] == codes[i];
      FindUniqueCode(codes[1..], i - 1);
    }
  }

  class Database {
    var users: seq<User>
    var codes: seq<CounselorCode>
    var messages: seq<Message>
    var appointments: seq<Appointment>
    /** The AUTO_INCREMENT counters of the three tables the API inserts into. */
    var nextUserId: int
    var nextMessageId: int
    var nextAppointmentId: int
    /** Stands for CURRENT_TIMESTAMP: it ticks at every insert. */
    var clock: nat

    ghost predicate Valid()
      reads this
    {
      && UsersWellFormed(users, nextUserId)
      && CodesWellFormed(codes)
      && MessagesWellFormed(messages, nextMessageId, clock)
      && AppointmentsWellFormed(appointments, nextAppointmentId)
    }

    function Snapshot(): Tables
      reads this
    {
      Tables(users, codes, messages, appointments)
    }

    /** An empty database whose counselor codes were issued beforehand. */
    constructor (issued: seq<CounselorCode>)
      requires CodesWellFormed(issued)
      ensures Valid()
      ensures Snapshot() == Tables([], issued, [], [])
    {
      users, codes, messages, appointments := [], issued, [], [];
      nextUserId, nextMessageId, nextAppointmentId := 1, 1, 1;
      clock := 0;
    }

    /** `INSERT INTO users (username, password, role) VALUES (...)`; the
        caller has checked the name is free, as the UNIQUE column demands. */
    method InsertUser(name: string, password: Digest, role: string) returns (id: int)
      requires Valid()
      requires !NameTaken(users, name)
      modifies this
      ensures Valid()
      ensures id == old(nextUserId)
      ensures users == old(users) + [User(id, name, password, role, old(clock))]
      ensures nextUserId == old(nextUserId) + 1 && clock == old(clock) + 1
      ensures codes == old(codes) && messages == old(messages) && appointments == old(appointments)
      ensures nextMessageId == old(nextMessageId) && nextAppointmentId == old(nextAppointmentId)
    {
      id := nextUserId;
      users := users + [User(id, name, password, role, clock)];
      nextUserId := nextUserId + 1;
      clock := clock + 1;
    }

    /** `UPDATE counselor_codes SET is_used = 1 WHERE id = %s`. */
    method MarkCodeUsedById(id: int)
      requires Valid()
      modifies this
      ensures Valid()
      ensures |codes| == |old(codes)|
      ensures forall i :: 0 <= i < |codes| ==>
                codes[i] == if old(codes)[i].id == id then old(codes)[i].(isUsed := true) else old(codes)[i]
      ensures users == old(users) && messages == old(messages) && appointments == old(appointments)
      ensures nextUserId == old(nextUserId) && nextMessageId == old(nextMessageId)
      ensures nextAppointmentId == old(nextAppointmentId) && clock == old(clock)
    {
      var rows := codes;
      codes := seq(|rows|, i requires 0 <= i < |rows| =>
                 if rows[i].id == id then rows[i].(isUsed := true) else rows[i]);
    }

    /** `UPDATE counselor_codes SET is_used = 1 WHERE code = %s`. */
    method MarkCodeUsedByCode(code: string)
      requires Valid()
      modifies this
      ensures Valid()
      ensures |codes| == |old(codes)|
      ensures forall i :: 0 <= i < |codes| ==>
                codes[i] == if old(codes)[i].code == code then old(codes)[i].(isUsed := true) else old(codes)[i]
      ensures users == old(users) && messages == old(messages) && appointments == old(appointments)
      ensures nextUserId == old(nextUserId) && nextMessageId == old(nextMessageId)
      ensures nextAppointmentId == old(nextAppointmentId) && clock == old(clock)
    {
      var rows := codes;
      codes := seq(|rows|, i requires 0 <= i < |rows| =>
                 if rows[i].code == code then rows[i].(isUsed := true) else rows[i]);
    }

    /** `INSERT INTO messages (sender_id, receiver_id, content, is_peer_support)`;
        the timestamp is the current clock reading. */
    method InsertMessage(senderId: int, receiverId: int, content: string, isPeerSupport: bool) returns (m: Message)
      requires Valid()
      modifies this
      ensures Valid()
      ensures m == Message(old(nextMessageId), senderId, receiverId, content, old(clock), isPeerSupport)
      ensures messages == old(messages) + [m]
      ensures nextMessageId == old(nextMessageId) + 1 && clock == old(clock) + 1
      ensures users == old(users) && codes == old(codes) && appointments == old(appointments)
      ensures nextUserId == old(nextUserId) && nextAppointmentId == old(nextAppointmentId)
    {
      m := Message(nextMessageId, senderId, receiverId, content, clock, isPeerSupport);
      messages := messages + [m];
      nextMessageId := nextMessageId + 1;
      clock := clock + 1;
    }

    /** `INSERT INTO appointments (user_id, counselor_id, date, time)`; the
        status column takes its default, "pending". */
    method InsertAppointment(userId: int, counselorId: int, date: Date, time: Time) returns (a: Appointment)
      requires Valid() && ValidDate(date) && ValidTime(time)
      modifies this
      ensures Valid()
      ensures a == Appointment(old(nextAppointmentId), userId, counselorId, date, time, STATUS_PENDING)
      ensures appointments == old(appointments) + [a]
      ensures nextAppointmentId == old(nextAppointmentId) + 1
      ensures users == old(users) && codes == old(codes) && messages == old(messages)
      ensures nextUserId == old(nextUserId) && nextMessageId == old(nextMessageId) && clock == old(clock)
    {
      a := Appointment(nextAppointmentId, userId, counselorId, date, time, STATUS_PENDING);
      appointments := appointments + [a];
      nextAppointmentId := nextAppointmentId + 1;
    }

    /** `UPDATE appointments SET status = %s WHERE id = %s`. */
    method SetAppointmentStatus(id: int, status: string)
      requires Valid() && IsKnownStatus(status)
      modifies this
      ensures Valid()
      ensures |appointments| == |old(appointments)|
      ensures forall i :: 0 <= i < |appointments| ==>
                appointments[i] == if old(appointments)[i].id == id then old(appointments)[i].(status := status) else old(appointments)[i]
      ensures users == old(users) && codes == old(codes) && messages == old(messages)
      ensures nextUserId == old(nextUserId) && nextMessageId == old(nextMessageId)
      ensures nextAppointmentId == old(nextAppointmentId) && clock == old(clock)
    {
      var rows := appointments;
      appointments := seq(|rows|, i requires 0 <= i < |rows| =>
                        if rows[i].id == id then rows[i].(status := status) else rows[i]);
    }

    /** `conn.rollback()`: the tables return to what they held when the
        transaction began. AUTO_INCREMENT values and the clock are not given
        back, as in the database. */
    method Rollback(before: Tables)
      requires UsersWellFormed(before.users, nextUserId) && CodesWellFormed(before.codes)
      requires MessagesWellFormed(before.messages, nextMessageId, clock)
      requires AppointmentsWellFormed(before.appointments, nextAppointmentId)
      modifies this
      ensures Valid()
      ensures Snapshot() == before
      ensures nextUserId == old(nextUserId) && nextMessageId == old(nextMessageId)
      ensures nextAppointmentId == old(nextAppointmentId) && clock == old(clock)
    {
      users, codes, messages, appointments := before.users, before.codes, before.messages, before.appointments;
    }
  }
}
