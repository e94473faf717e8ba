/**
  The two tables of the journal store and the constraints the schema puts on
  them: `user(id, username UNIQUE, password)` and
  `journal_entry(id, title, description, experience, start_time, end_time, user_id -> user.id)`.
  Every column is NOT NULL, so every field below is a plain value. The ORM
  queries the request handlers use (get by primary key, filter_by, first) are
  functions over the tables held as sequences in insertion order.
*/
module Models {
  import opened Wrappers
  import opened Timestamps

  /** A row of `user`; `password` holds the stored hash, never the submitted text. */
  datatype User = User(id: int, username: string, password: string)

  /** A row of `journal_entry`; `userId` is the foreign key to the author. */
  datatype JournalEntry = JournalEntry(
    id: int,
    title: string,
    description: string,
    experience: string,
    startTime: DateTime,
    endTime: DateTime,
    userId: int)

  // ------------------------------------------------------------ queries

  /** `query.filter(...)`: the rows that satisfy `keep`, in table order. */
  function Filter(s: seq<JournalEntry>, keep: JournalEntry -> bool): (r: seq<JournalEntry>)
    ensures forall x :: x in r <==> x in s && keep(x)
  {
    if s == [] then []
    else (if keep(s[0]) then [s[0]] else []) + Filter(s[1..], keep)
  }

  /** A filter keeps every row that passes as often as it occurs, and no other row. */
  lemma {:induction false} FilterCount(s: seq<JournalEntry>, keep: JournalEntry -> bool, x: JournalEntry)
    ensures multiset(Filter(s, keep))[x] == if keep(x) then multiset(s)[x] else 0
  {
    if s != [] {
      assert s == [s[0]] + s[1..];
      FilterCount(s[1..], keep, x);
    }
  }

  lemma {:induction false} FilterAppend(s: seq<JournalEntry>, t: seq<JournalEntry>, keep: JournalEntry -> bool)
    ensures Filter(s + t, keep) == Filter(s, keep) + Filter(t, keep)
  {
    if s != [] {
      var head := if keep(s[0]) then [s[0]] else [];
      assert (s + t)[0] == s[0] && (s + t)[1..] == s[1..] + t;
      assert Filter(s + t, keep) == head + Filter(s[1..] + t, keep);
      assert Filter(s, keep) == head + Filter(s[1..], keep);
      FilterAppend(s[1..], t, keep);
    } else {
      assert s + t == t;
    }
  }

  /** A filter that every row passes returns the rows unchanged, in order. */
  lemma {:induction false} FilterKeepsAll(s: seq<JournalEntry>, keep: JournalEntry -> bool)
    requires forall x :: x in s ==> keep(x)
    ensures Filter(s, keep) == s
  {
    if s != [] {
      FilterKeepsAll(s[1..], keep);
    }
  }

  /** `User.query.get(id)`. */
  function FindUserById(users: seq<User>, id: int): (r: Option<User>)
    ensures r.Some? ==> r.value in users && r.value.id == id
    ensures r.None? <==> forall u :: u in users ==> u.id != id
  {
    if users == [] then None
    else if users[0].id == id then Some(users[0])
    else FindUserById(users[1..], id)
  }

  /** `User.query.filter_by(username=name).first()`. */
  function FindUserByName(users: seq<User>, name: string): (r: Option<User>)
    ensures r.Some? ==> r.value in users && r.value.username == name
    ensures r.None? <==> forall u :: u in users ==> u.username != name
  {
    if users == [] then None
    else if users[0].username == name then Some(users[0])
    else FindUserByName(users[1..], name)
  }

  /** `JournalEntry.query.get(id)`. */
  function FindEntryById(entries: seq<JournalEntry>, id: int): (r: Option<JournalEntry>)
    ensures r.Some? ==> r.value in entries && r.value.id == id
    ensures r.None? <==> forall e :: e in entries ==> e.id != id
  {
    if entries == [] then None
    else if entries[0].id == id then Some(entries[0])
    else FindEntryById(entries[1..], id)
  }

  // -------------------------------------------------------- constraints

  predicate UniqueUsernames(users: seq<User>) {
    forall i, j :: 0 <= i < j < |users| ==> users[i].username != users[j].username
  }

  predicate UniqueUserIds(users: seq<User>) {
    forall i, j :: 0 <= i < j < |users| ==> users[i].id != users[j].id
  }

  predicate UniqueEntryIds(entries: seq<JournalEntry>) {
    forall i, j :: 0 <= i < j < |entries| ==> entries[i].id != entries[j].id
  }

  /** Every entry's user_id names an existing user. */
  predicate ForeignKeysHold(users: seq<User>, entries: seq<JournalEntry>) {
    forall e :: e in entries ==> FindUserById(users, e.userId).Some?
  }

  /** Both DateTime columns hold real calendar times. */
  predicate TimesValid(entries: seq<JournalEntry>) {
    forall e :: e in entries ==> IsValid(e.startTime) && IsValid(e.endTime)
  }

  /** Everything the schema guarantees about the two tables together. */
  predicate Consistent(users: seq<User>, entries: seq<JournalEntry>) {
    && (forall u :: u in users ==> u.id >= 1)
    && (forall e :: e in entries ==> e.id >= 1)
    && UniqueUsernames(users)
    && UniqueUserIds(users)
    && UniqueEntryIds(entries)
    && ForeignKeysHold(users, entries)
    && TimesValid(entries)
  }

  /** Two entries of a table with unique ids that share an id are the same entry. */
  lemma SameIdSameEntry(entries: seq<JournalEntry>, a: JournalEntry, b: JournalEntry)
    requires UniqueEntryIds(entries)
    requires a in entries && b in entries && a.id == b.id
    ensures a == b
  {
    var i :| 0 <= i < |entries| && entries[i] == a;
    var j :| 0 <= j < |entries| && entries[j] == b;
    assert i == j;
  }

  /** With unique usernames, looking a name up finds the one user who has it. */
  lemma NameLookupIsExact(users: seq<User>, u: User)
    requires UniqueUsernames(users)
    requires u in users
    ensures FindUserByName(users, u.username) == Some(u)
  {
    var found := FindUserByName(users, u.username).value;
    var i :| 0 <= i < |users| && users[i] == found;
    var j :| 0 <= j < |users| && users[j] == u;
    assert i == j;
  }

  // ---------------------------------------------------- key assignment

  /** The id the store gives the next user: one past the largest id in use. */
  function NextUserId(users: seq<User>): (r: int)
    ensures r >= 1 && forall u :: u in users ==> u.id < r
  {
    if users == [] then 1
    else
      var rest := NextUserId(users[..|users| - 1]);
      var last := users[|users| - 1].id + 1;
      assert users == users[..|users| - 1] + [users[|users| - 1]];
      if rest < last then last else rest
  }

  /** The id the store gives the next entry: one past the largest id in use. */
  function NextEntryId(entries: seq<JournalEntry>): (r: int)
    ensures r >= 1 && forall e :: e in entries ==> e.id < r
  {
    if entries == [] then 1
    else
      var rest := NextEntryId(entries[..|entries| - 1]);
      var last := entries[|entries| - 1].id + 1;
      assert entries == entries[..|entries| - 1] + [entries[|entries| - 1]];
      if rest < last then last else rest
  }

  /** Inserting a user whose id is fresh and positive and whose name is unused keeps the store consistent. */
  lemma AddUserKeepsConsistent(users: seq<User>, entries: seq<JournalEntry>, u: User)
    requires Consistent(users, entries)
    requires u.id >= 1
    requires forall v :: v in users ==> v.id != u.id && v.username != u.username
    ensures Consistent(users + [u], entries)
  {
    var users' := users + [u];
    forall e | e in entries
      ensures FindUserById(users', e.userId).Some?
    {
      var v := FindUserById(users, e.userId).value;
      assert v in users';
    }
  }

  /** Inserting an entry with a fresh positive id, an existing author and real times keeps the store consistent. */
  lemma AddEntryKeepsConsistent(users: seq<User>, entries: seq<JournalEntry>, e: JournalEntry)
    requires Consistent(users, entries)
    requires e.id >= 1
    requires forall d :: d in entries ==> d.id != e.id
    requires FindUserById(users, e.userId).Some?
    requires IsValid(e.startTime) && IsValid(e.endTime)
    ensures Consistent(users, entries + [e])
  {
  }

  // ------------------------------------------------------ relationships

  /** `user.entries`: the entries whose user_id is the user's id. */
  function EntriesOf(entries: seq<JournalEntry>, userId: int): seq<JournalEntry>
  {
    Filter(entries, (e: JournalEntry) => e.userId == userId)
  }

  /** `entry.author`: the user whose id is the entry's user_id. */
  function Author(users: seq<User>, e: JournalEntry): Option<User>
  {
    FindUserById(users, e.userId)
  }

  /**
    The two ends of the relationship agree: in a consistent store every entry
    has an author, and a user's entries are exactly the entries whose author
    is that user.
  */
  lemma RelationshipIsSymmetric(users: seq<User>, entries: seq<JournalEntry>, u: User, e: JournalEntry)
    requires Consistent(users, entries)
    requires u in users && e in entries
    ensures Author(users, e).Some? && Author(users, e).value in users
    ensures e in EntriesOf(entries, u.id) <==> Author(users, e) == Some(u)
  {
  }
}
