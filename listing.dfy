/** The read-only selections behind the listing endpoints: the anonymous
    directory of list_users, the conversation history of get_messages and
    the appointment list of get_appointments, each with what it promises. */
module Listing {
  import opened Request
  import opened Text
  import opened DateTime
  import opened Store
  import opened Api

  // ---------------------------------------------------------------------
  // The anonymous directory
  // ---------------------------------------------------------------------

  /** The alias list_users shows in place of a username. */
  function Alias(id: int, role: string): string
  {
    (if role == ROLE_COUNSELOR then "Counselor" else "Anonymous") + IntToString(id)
  }

  /** The alias gives away nothing but the id and whether the account is a
      counselor's, and it gives away both: two accounts share an alias only
      when they share the id and the counselor/other distinction. */
  lemma AliasInjective(id1: int, role1: string, id2: int, role2: string)
    requires Alias(id1, role1) == Alias(id2, role2)
    ensures id1 == id2
    ensures role1 == ROLE_COUNSELOR <==> role2 == ROLE_COUNSELOR
  {
    var a1, a2 := Alias(id1, role1), Alias(id2, role2);
    assert a1[0] == if role1 == ROLE_COUNSELOR then 'C' else 'A';
    assert a2[0] == if role2 == ROLE_COUNSELOR then 'C' else 'A';
    assert IntToString(id1) == a1[9..] == a2[9..] == IntToString(id2);
    IntToStringInjective(id1, id2);
  }

  /** The row a truthy `exclude_id` names. */
  predicate Excluded(u: User, excludeId: Option<int>)
  {
    HasId(excludeId) && u.id == excludeId.value
  }

  function Entry(u: User): DirectoryEntry
  {
    DirectoryEntry(u.id, Alias(u.id, u.role), u.role)
  }

  /** The directory list_users builds from the rows it reads, in their order. */
  function Directory(rows: seq<User>, excludeId: Option<int>): seq<DirectoryEntry>
  {
    if rows == [] then []
    else
      var last := rows[|rows| - 1];
      Directory(rows[..|rows| - 1], excludeId) + (if Excluded(last, excludeId) then [] else [Entry(last)])
  }

  /** Every entry of the directory is the entry of a row that is not excluded. */
  lemma {:induction false} DirectorySound(rows: seq<User>, excludeId: Option<int>)
    ensures forall e :: e in Directory(rows, excludeId) ==>
              exists i :: 0 <= i < |rows| && !Excluded(rows[i], excludeId) && e == Entry(rows[i])
  {
    if rows != [] {
      var init, last := rows[..|rows| - 1], rows[|rows| - 1];
      DirectorySound(init, excludeId);
      forall e | e in Directory(rows, excludeId)
        ensures exists i :: 0 <= i < |rows| && !Excluded(rows[i], excludeId) && e == Entry(rows[i])
      {
        if e in Directory(init, excludeId) {
          var i :| 0 <= i < |init| && !Excluded(init[i], excludeId) && e == Entry(init[i]);
          assert rows[i] == init[i];
        } else {
          assert !Excluded(last, excludeId) && e == Entry(last);
        }
      }
    }
  }

  /** Every row that is not excluded has its entry in the directory. */
  lemma {:induction false} DirectoryComplete(rows: seq<User>, excludeId: Option<int>)
    ensures forall i :: 0 <= i < |rows| && !Excluded(rows[i], excludeId) ==> Entry(rows[i]) in Directory(rows, excludeId)
  {
    if rows != [] {
      var init := rows[..|rows| - 1];
      DirectoryComplete(init, excludeId);
      forall i | 0 <= i < |rows| && !Excluded(rows[i], excludeId)
        ensures Entry(rows[i]) in Directory(rows, excludeId)
      {
        if i < |init| {
          assert init[i] == rows[i];
        }
      }
    }
  }

  /** The directory lists every row except the excluded one, under its alias
      and with its role, and nothing else. */
  lemma DirectoryMembers(rows: seq<User>, excludeId: Option<int>)
    ensures forall e :: e in Directory(rows, excludeId) <==>
              exists i :: 0 <= i < |rows| && !Excluded(rows[i], excludeId) && e == Entry(rows[i])
  {
    DirectorySound(rows, excludeId);
    DirectoryComplete(rows, excludeId);
  }

  /** The excluded id never appears. */
  lemma DirectoryHidesExcluded(rows: seq<User>, excludeId: Option<int>)
    requires HasId(excludeId)
    ensures forall e :: e in Directory(rows, excludeId) ==> e.id != excludeId.value
  {
    DirectoryMembers(rows, excludeId);
  }

  predicate IdsIncrease(d: seq<DirectoryEntry>)
  {
    forall i, j :: 0 <= i < j < |d| ==> d[i].id < d[j].id
  }

  /** The directory keeps the store's order: with ids increasing along the
      table, they increase along the directory too. */
  lemma {:induction false} DirectoryIdsIncrease(rows: seq<User>, nextId: int, excludeId: Option<int>)
    requires UsersWellFormed(rows, nextId)
    ensures IdsIncrease(Directory(rows, excludeId))
  {
    if rows != [] {
      var init, last := rows[..|rows| - 1], rows[|rows| - 1];
      assert UsersWellFormed(init, nextId);
      DirectoryIdsIncrease(init, nextId, excludeId);
      DirectoryMembers(init, excludeId);
      var d0 := Directory(init, excludeId);
      var tail := if Excluded(last, excludeId) then [] else [Entry(last)];
      var d := d0 + tail;
      assert Directory(rows, excludeId) == d;
      forall i, j | 0 <= i < j < |d|
        ensures d[i].id < d[j].id
      {
        if j < |d0| {
          assert d[i] == d0[i] && d[j] == d0[j];
        } else {
          assert d[j] == Entry(last) && d[i] == d0[i];
          assert d0[i] in d0;
          var p :| 0 <= p < |init| && !Excluded(init[p], excludeId) && d0[i] == Entry(init[p]);
          assert init[p] == rows[p];
          assert rows[p].id < rows[|rows| - 1].id;
        }
      }
    }
  }

  /** No two entries share an alias, so an alias names one account. */
  lemma DirectoryAliasesDistinct(rows: seq<User>, nextId: int, excludeId: Option<int>)
    requires UsersWellFormed(rows, nextId)
    ensures var d := Directory(rows, excludeId);
            forall i, j :: 0 <= i < j < |d| ==> d[i].alias != d[j].alias
  {
    var d := Directory(rows, excludeId);
    DirectoryIdsIncrease(rows, nextId, excludeId);
    DirectoryMembers(rows, excludeId);
    forall i, j | 0 <= i < j < |d|
      ensures d[i].alias != d[j].alias
    {
      assert d[i] in d && d[j] in d;
      var p :| 0 <= p < |rows| && !Excluded(rows[p], excludeId) && d[i] == Entry(rows[p]);
      var q :| 0 <= q < |rows| && !Excluded(rows[q], excludeId) && d[j] == Entry(rows[q]);
      assert d[i].id < d[j].id;
      if d[i].alias == d[j].alias {
        AliasInjective(d[i].id, rows[p].role, d[j].id, rows[q].role);
        assert false;
      }
    }
  }

  // ---------------------------------------------------------------------
  // Conversation history
  // ---------------------------------------------------------------------

  /** A message from one of the two parties to the other. */
  predicate Between(m: Message, a: int, b: int)
  {
    (m.senderId == a && m.receiverId == b) || (m.senderId == b && m.receiverId == a)
  }

  /** The messages between `a` and `b`, in the order the table holds them. */
  function Conversation(ms: seq<Message>, a: int, b: int): seq<Message>
  {
    if ms == [] then []
    else
      var last := ms[|ms| - 1];
      Conversation(ms[..|ms| - 1], a, b) + (if Between(last, a, b) then [last] else [])
  }

  /** Strictly increasing timestamps: `ORDER BY timestamp ASC` over rows
      whose timestamps differ. */
  predicate Chronological(ms: seq<Message>)
  {
    forall i, j :: 0 <= i < j < |ms| ==> ms[i].timestamp < ms[j].timestamp
  }

  /** The conversation holds exactly the messages between the two parties. */
  lemma {:induction false} ConversationMembers(ms: seq<Message>, a: int, b: int)
    ensures forall m :: m in Conversation(ms, a, b) <==> m in ms && Between(m, a, b)
  {
    if ms != [] {
      var init := ms[..|ms| - 1];
      ConversationMembers(init, a, b);
      assert ms == init + [ms[|ms| - 1]];
    }
  }

  /** It does not matter which party asks. */
  lemma {:induction false} ConversationSymmetric(ms: seq<Message>, a: int, b: int)
    ensures Conversation(ms, a, b) == Conversation(ms, b, a)
  {
    if ms != [] {
      ConversationSymmetric(ms[..|ms| - 1], a, b);
    }
  }

  /** Picking messages out of a chronological table keeps them chronological. */
  lemma {:induction false} ConversationChronological(ms: seq<Message>, a: int, b: int)
    requires Chronological(ms)
    ensures Chronological(Conversation(ms, a, b))
  {
    if ms != [] {
      var init := ms[..|ms| - 1];
      var last := ms[|ms| - 1];
      assert Chronological(init);
      ConversationChronological(init, a, b);
      ConversationMembers(init, a, b);
      var c := Conversation(init, a, b);
      forall k | 0 <= k < |c|
        ensures c[k].timestamp < last.timestamp
      {
        assert c[k] in init;
        var p :| 0 <= p < |init| && init[p] == c[k];
        assert ms[p] == init[p];
      }
    }
  }

  /** A message appended to the table ends the conversation it belongs to. */
  lemma ConversationAppend(ms: seq<Message>, m: Message, a: int, b: int)
    ensures Conversation(ms + [m], a, b) == Conversation(ms, a, b) + (if Between(m, a, b) then [m] else [])
  {
    assert (ms + [m])[..|ms|] == ms;
  }

  /** Two chronological lists with the same members are the same list: the
      members and the order fix the history completely. */
  lemma {:induction false} ChronologicalUnique(s: seq<Message>, t: seq<Message>)
    requires Chronological(s) && Chronological(t)
    requires forall m :: m in s <==> m in t
    ensures s == t
  {
    if s == [] {
      assert forall i :: 0 <= i < |t| ==> t[i] in t;
    } else {
      assert s[0] in t;
      assert t[0] in s;
      var p :| 0 <= p < |t| && t[p] == s[0];
      var q :| 0 <= q < |s| && s[q] == t[0];
      assert p == 0;
      TailMembers(s, t);
      ChronologicalUnique(s[1..], t[1..]);
      assert s == [s[0]] + s[1..] && t == [t[0]] + t[1..];
    }
  }

  /** With the same first message, the rest of two chronological lists with
      the same members have the same members too. */
  lemma TailMembers(s: seq<Message>, t: seq<Message>)
    requires Chronological(s) && Chronological(t) && s != [] && t != [] && s[0] == t[0]
    requires forall m :: m in s <==> m in t
    ensures Chronological(s[1..]) && Chronological(t[1..])
    ensures forall m :: m in s[1..] <==> m in t[1..]
  {
    forall m | m in s[1..]
      ensures m in t[1..]
    {
      var i :| 0 <= i < |s[1..]| && s[1..][i] == m;
      assert s[i + 1] == m && s[0].timestamp < m.timestamp;
      assert m in s;
      var j :| 0 <= j < |t| && t[j] == m;
      assert t[1..][j - 1] == m;
    }
    forall m | m in t[1..]
      ensures m in s[1..]
    {
      var j :| 0 <= j < |t[1..]| && t[1..][j] == m;
      assert t[j + 1] == m && t[0].timestamp < m.timestamp;
      assert m in t;
      var i :| 0 <= i < |s| && s[i] == m;
      assert s[1..][i - 1] == m;
    }
  }

  // ---------------------------------------------------------------------
  // Appointment list
  // ---------------------------------------------------------------------

  /** One row of the join get_appointments selects: the appointment and the
      usernames of its two parties. */
  datatype Booking = Booking(appointment: Appointment, userName: string, counselorName: string)

  /** The digits at the front of `s`. */
  function LeadingDigits(s: string): (d: string)
    ensures AllDigits(d) && |d| <= |s| && d == s[..|d|]
    ensures |d| < |s| ==> !IsDigit(s[|d|])
  {
    if s == [] || !IsDigit(s[0]) then [] else [s[0]] + LeadingDigits(s[1..])
  }

  /** The number MySQL reads from the text parameter when it compares it
      with an integer column: its leading digits, or 0 when there are none. */
  function SqlInt(s: string): nat
  {
    DigitsValue(LeadingDigits(s))
  }

  /** `a.user_id = %s OR a.counselor_id = %s`. */
  predicate Involves(a: Appointment, key: int)
  {
    a.userId == key || a.counselorId == key
  }

  /** Some row of `users` has this id. */
  predicate IdTaken(users: seq<User>, id: int)
  {
    exists i :: 0 <= i < |users| && users[i].id == id
  }

  /** Some row of `users` with this id has this username. */
  predicate NamedBy(users: seq<User>, id: int, name: string)
  {
    exists i :: 0 <= i < |users| && users[i].id == id && users[i].username == name
  }

  /** The join of `appointments` with `users` twice, restricted to the
      appointments of `key`: an appointment whose user or counselor has no
      row is dropped, as an inner join drops it. */
  function Joined(appointments: seq<Appointment>, users: seq<User>, key: int): seq<Booking>
  {
    if appointments == [] then []
    else
      var init := Joined(appointments[..|appointments| - 1], users, key);
      var a := appointments[|appointments| - 1];
      var u, c := FindUserById(users, a.userId), FindUserById(users, a.counselorId);
      if Involves(a, key) && u.Some? && c.Some? then init + [Booking(a, u.value.username, c.value.username)]
      else init
  }

  /** The join holds each appointment of `key` whose two parties both have
      a row, named as their rows name them, and nothing else. */
  lemma {:induction false} JoinedMembers(appointments: seq<Appointment>, users: seq<User>, key: int)
    ensures forall b :: b in Joined(appointments, users, key) ==>
              && b.appointment in appointments && Involves(b.appointment, key)
              && NamedBy(users, b.appointment.userId, b.userName)
              && NamedBy(users, b.appointment.counselorId, b.counselorName)
    ensures forall a :: a in appointments && Involves(a, key) && IdTaken(users, a.userId) && IdTaken(users, a.counselorId) ==>
              exists b :: b in Joined(appointments, users, key) && b.appointment == a
  {
    if appointments != [] {
      var init := appointments[..|appointments| - 1];
      var a := appointments[|appointments| - 1];
      JoinedMembers(init, users, key);
      assert appointments == init + [a];
      var u, c := FindUserById(users, a.userId), FindUserById(users, a.counselorId);
      if u.Some? {
        var i :| 0 <= i < |users| && users[i] == u.value;
        assert NamedBy(users, a.userId, u.value.username);
      }
      if c.Some? {
        var i :| 0 <= i < |users| && users[i] == c.value;
        assert NamedBy(users, a.counselorId, c.value.username);
      }
      if Involves(a, key) && IdTaken(users, a.userId) && IdTaken(users, a.counselorId) {
        assert Booking(a, u.value.username, c.value.username) in Joined(appointments, users, key);
      }
    }
  }

  /** `x` may be listed before `y` under `ORDER BY date DESC, time DESC`. */
  predicate ListedBefore(x: Booking, y: Booking)
  {
    NotEarlier(x.appointment.date, x.appointment.time, y.appointment.date, y.appointment.time)
  }

  predicate NewestFirstOrder(s: seq<Booking>)
  {
    forall i, j :: 0 <= i < j < |s| ==> ListedBefore(s[i], s[j])
  }

  /** Puts `x` in front of the first row it may precede. */
  function InsertNewestFirst(x: Booking, s: seq<Booking>): seq<Booking>
  {
    if s == [] then [x]
    else if ListedBefore(x, s[0]) then [x] + s
    else [s[0]] + InsertNewestFirst(x, s[1..])
  }

  /** The rows of `s` ordered newest first. */
  function NewestFirst(s: seq<Booking>): seq<Booking>
  {
    if s == [] then [] else InsertNewestFirst(s[0], NewestFirst(s[1..]))
  }

  lemma {:induction false} InsertNewestFirstMultiset(x: Booking, s: seq<Booking>)
    ensures multiset(InsertNewestFirst(x, s)) == multiset(s) + multiset{x}
  {
    if s != [] && !ListedBefore(x, s[0]) {
      InsertNewestFirstMultiset(x, s[1..]);
      assert s == [s[0]] + s[1..];
    }
  }

  /** The row the insertion passes by may precede every row after it. */
  lemma FirstPrecedesInserted(x: Booking, s: seq<Booking>)
    requires NewestFirstOrder(s) && s != [] && !ListedBefore(x, s[0])
    ensures forall y :: y in multiset(s[1..]) + multiset{x} ==> ListedBefore(s[0], y)
  {
    var a, b := s[0].appointment, x.appointment;
    NotEarlierTotal(a.date, a.time, b.date, b.time);
    forall y | y in multiset(s[1..]) + multiset{x}
      ensures ListedBefore(s[0], y)
    {
      if y != x {
        var p :| 0 <= p < |s[1..]| && s[1..][p] == y;
        assert s[p + 1] == y;
      }
    }
  }

  lemma {:induction false} InsertNewestFirstOrder(x: Booking, s: seq<Booking>)
    requires NewestFirstOrder(s)
    ensures NewestFirstOrder(InsertNewestFirst(x, s))
  {
    if s != [] {
      if ListedBefore(x, s[0]) {
        var r := [x] + s;
        forall i, j | 0 <= i < j < |r|
          ensures ListedBefore(r[i], r[j])
        {
          if i == 0 && j > 1 {
            var a, b, c := x.appointment, s[0].appointment, s[j - 1].appointment;
            NotEarlierTransitive(a.date, a.time, b.date, b.time, c.date, c.time);
          }
        }
      } else {
        var rest := InsertNewestFirst(x, s[1..]);
        InsertNewestFirstOrder(x, s[1..]);
        InsertNewestFirstMultiset(x, s[1..]);
        FirstPrecedesInserted(x, s);
        var r := [s[0]] + rest;
        forall i, j | 0 <= i < j < |r|
          ensures ListedBefore(r[i], r[j])
        {
          if i == 0 {
            assert r[j] in multiset(rest);
          } else {
            assert r[i] == rest[i - 1] && r[j] == rest[j - 1];
          }
        }
      }
    }
  }

  /** The listing is ordered newest first and holds the joined rows, each as
      often as the join yields it. */
  lemma {:induction false} NewestFirstCorrect(s: seq<Booking>)
    ensures multiset(NewestFirst(s)) == multiset(s)
    ensures NewestFirstOrder(NewestFirst(s))
  {
    if s != [] {
      NewestFirstCorrect(s[1..]);
      InsertNewestFirstMultiset(s[0], NewestFirst(s[1..]));
      InsertNewestFirstOrder(s[0], NewestFirst(s[1..]));
      assert s == [s[0]] + s[1..];
    }
  }

  /** One row as get_appointments returns it, its DATE and TIME values
      turned into text by `str()`. */
  function Render(b: Booking): AppointmentView
  {
    var a := b.appointment;
    AppointmentView(a.id, a.userId, a.counselorId, FormatDate(a.date), FormatTime(a.time),
                    a.status, b.userName, b.counselorName)
  }

  /** The text a client receives reads back, with the formats
      create_appointment accepts, as the date and time that were stored. */
  lemma RenderRoundTrip(b: Booking)
    requires ValidDate(b.appointment.date) && ValidTime(b.appointment.time)
    ensures ParseDate(Render(b).date) == Some(b.appointment.date)
    ensures ParseTime(Render(b).time) == Some(b.appointment.time)
  {
    DateRoundTrip(b.appointment.date);
    TimeRoundTrip(b.appointment.time);
  }
}
