/**
  The request handlers over the journal store. The store is a `Journal`
  object: the two tables and the session of the client making the requests
  (the user id login_user stored, or None). Handlers that write the store or
  the session are methods; handlers that only read are functions. Every
  handler behind login_required answers LoginRequired (the redirect to the
  login page) when no user is logged in.
*/
module Routes {
  import opened Wrappers
  import opened Timestamps
  import opened Models
  import opened Passwords
  import opened Export

  datatype Error =
    | LoginRequired       // login_required redirects to the login page
    | InvalidCredentials  // the login form is shown again with a flashed error
    | DuplicateUsername   // the UNIQUE constraint on username fails at commit
    | MalformedDateTime   // strptime raises ValueError before anything is added
    | NotFound            // HTTP 404

  datatype Result<T> = Ok(value: T) | Err(error: Error)

  // ---------------------------------------------------- authentication

  /** The login check: the user with this name, when the submitted password checks against its stored hash. */
  function Authenticate(users: seq<User>, h: Hasher, username: string, password: string): (r: Option<User>)
    ensures r.Some? <==> (&& FindUserByName(users, username).Some?
                          && h.check(FindUserByName(users, username).value.password, password))
    ensures r.Some? ==> r.value in users && r.value.username == username
  {
    var user := FindUserByName(users, username);
    if user.Some? && h.check(user.value.password, password) then user else None
  }

  /** A user just registered with a password can log in with that same password. */
  lemma RegisteredUserCanLogIn(users: seq<User>, h: Hasher, u: User, password: string, salt: string)
    requires Sound(h)
    requires forall v :: v in users ==> v.username != u.username
    requires u.password == h.hash(password, salt)
    ensures Authenticate(users + [u], h, u.username, password) == Some(u)
  {
    var found := FindUserByName(users + [u], u.username);
    assert found.Some? by { assert u in users + [u]; }
    assert found.value !in users;
  }

  /** Logging in is decided by the named user's own row alone. */
  lemma LoginDependsOnlyOnNamedUser(users: seq<User>, h: Hasher, username: string, password: string)
    requires UniqueUsernames(users)
    ensures Authenticate(users, h, username, password).Some? <==>
      exists u :: u in users && u.username == username && h.check(u.password, password)
  {
    if u :| u in users && u.username == username && h.check(u.password, password) {
      NameLookupIsExact(users, u);
    }
  }

  // ---------------------------------------------------------- entries

  /**
    view_entry for user `uid`: get_or_404, then the ownership check. A missing
    id and another user's entry give the same NotFound.
  */
  function ViewEntryFor(entries: seq<JournalEntry>, uid: int, id: int): (r: Result<JournalEntry>)
    ensures r.Ok? ==> r.value in entries && r.value.id == id && r.value.userId == uid
    ensures r.Err? ==> r.error == NotFound
  {
    var entry := FindEntryById(entries, id);
    if entry.None? then Err(NotFound)
    else if entry.value.userId != uid then Err(NotFound)
    else Ok(entry.value)
  }

  /** The owner of an entry always gets it. */
  lemma OwnerSeesEntry(entries: seq<JournalEntry>, e: JournalEntry)
    requires UniqueEntryIds(entries)
    requires e in entries
    ensures ViewEntryFor(entries, e.userId, e.id) == Ok(e)
  {
    SameIdSameEntry(entries, FindEntryById(entries, e.id).value, e);
  }

  /**
    What view_entry answers depends only on the caller's own entries: the
    entries of other users, and whether they exist at all, cannot be told
    apart from absent ids.
  */
  lemma ViewEntrySeesOnlyOwnEntries(entries: seq<JournalEntry>, uid: int, id: int)
    requires UniqueEntryIds(entries)
    ensures ViewEntryFor(entries, uid, id) == ViewEntryFor(EntriesOf(entries, uid), uid, id)
  {
    var own := EntriesOf(entries, uid);
    var inAll, inOwn := FindEntryById(entries, id), FindEntryById(own, id);
    if inAll.Some? && inOwn.Some? {
      SameIdSameEntry(entries, inAll.value, inOwn.value);
    }
  }

  /** Entries of other users appended to the table do not change a user's entries. */
  lemma EntriesOfIgnoresOthers(entries: seq<JournalEntry>, others: seq<JournalEntry>, uid: int)
    requires forall e :: e in others ==> e.userId != uid
    ensures EntriesOf(entries + others, uid) == EntriesOf(entries, uid)
  {
    var keep := (e: JournalEntry) => e.userId == uid;
    FilterAppend(entries, others, keep);
    var none := Filter(others, keep);
    if none != [] {
      assert none[0] in none;
    }
  }

  // -------------------------------------------------------- the store

  class Journal {
    var users: seq<User>
    var entries: seq<JournalEntry>
    var session: Option<int>

    /** The schema's constraints hold, and a session names an existing user. */
    ghost predicate Valid()
      reads this
    {
      && Consistent(users, entries)
      && (session.Some? ==> FindUserById(users, session.value).Some?)
    }

    /** Empty tables and no one logged in. */
    constructor ()
      ensures Valid()
      ensures users == [] && entries == [] && session == None
    {
      users, entries, session := [], [], None;
    }

    /** load_user: the user with this id, if any. */
    function LoadUser(id: int): (r: Option<User>)
      reads this
      ensures r.Some? ==> r.value in users && r.value.id == id
      ensures r.None? <==> forall u :: u in users ==> u.id != id
    {
      FindUserById(users, id)
    }

    /** current_user: the user the session names, or None for an anonymous client. */
    function CurrentUser(): (r: Option<User>)
      reads this
      ensures r.Some? ==> session == Some(r.value.id) && r.value in users
      ensures Valid() ==> (r.Some? <==> session.Some?)
    {
      if session.None? then None else LoadUser(session.value)
    }

    /**
      register: store the username with the hash of the password. A taken
      username makes the commit fail and nothing is stored.
    */
    method Register(h: Hasher, username: string, password: string, salt: string) returns (r: Result<User>)
      requires Valid()
      modifies this`users
      ensures Valid()
      ensures FindUserByName(old(users), username).Some? ==>
        r == Err(DuplicateUsername) && users == old(users)
      ensures FindUserByName(old(users), username).None? ==>
        && r.Ok?
        && r.value == User(r.value.id, username, h.hash(password, salt))
        && (forall u :: u in old(users) ==> u.id != r.value.id)
        && users == old(users) + [r.value]
    {
      var user := User(NextUserId(users), username, h.hash(password, salt));
      if FindUserByName(users, username).Some? {
        return Err(DuplicateUsername);
      }
      AddUserKeepsConsistent(users, entries, user);
      users := users + [user];
      r := Ok(user);
    }

    /** login: on good credentials the session names the user; otherwise nothing changes. */
    method Login(h: Hasher, username: string, password: string) returns (r: Result<User>)
      requires Valid()
      modifies this`session
      ensures Valid()
      ensures Authenticate(users, h, username, password).Some? ==>
        r == Ok(Authenticate(users, h, username, password).value) && session == Some(r.value.id)
      ensures Authenticate(users, h, username, password).None? ==>
        r == Err(InvalidCredentials) && session == old(session)
    {
      var user := Authenticate(users, h, username, password);
      if user.None? {
        return Err(InvalidCredentials);
      }
      session := Some(user.value.id);
      r := Ok(user.value);
    }

    /** logout: ends the session of a logged-in client. */
    method Logout() returns (r: Result<()>)
      requires Valid()
      modifies this`session
      ensures Valid()
      ensures old(CurrentUser()).None? ==> r == Err(LoginRequired) && session == old(session)
      ensures old(CurrentUser()).Some? ==> r == Ok(()) && session == None
    {
      if CurrentUser().None? {
        return Err(LoginRequired);
      }
      session := None;
      r := Ok(());
    }

    /** dashboard: exactly the logged-in user's entries. */
    function Dashboard(): (r: Result<seq<JournalEntry>>)
      reads this
      ensures r.Err? <==> CurrentUser().None?
      ensures r.Err? ==> r.error == LoginRequired
      ensures r.Ok? ==> forall e :: e in r.value <==> e in entries && session == Some(e.userId)
    {
      var user := CurrentUser();
      if user.None? then Err(LoginRequired) else Ok(EntriesOf(entries, user.value.id))
    }

    /**
      new_entry: parse both times, then add one entry owned by the current
      user. A malformed time stores nothing. Start after end is accepted.
    */
    method NewEntry(title: string, description: string, experience: string, startText: string, endText: string)
      returns (r: Result<JournalEntry>)
      requires Valid()
      modifies this`entries
      ensures Valid()
      ensures old(CurrentUser()).None? ==> r == Err(LoginRequired) && entries == old(entries)
      ensures old(CurrentUser()).Some? && (ParseDateTimeLocal(startText).None? || ParseDateTimeLocal(endText).None?) ==>
        r == Err(MalformedDateTime) && entries == old(entries)
      ensures old(CurrentUser()).Some? && ParseDateTimeLocal(startText).Some? && ParseDateTimeLocal(endText).Some? ==>
        && r.Ok?
        && r.value == JournalEntry(r.value.id, title, description, experience,
                                   ParseDateTimeLocal(startText).value, ParseDateTimeLocal(endText).value,
                                   old(CurrentUser()).value.id)
        && (forall e :: e in old(entries) ==> e.id != r.value.id)
        && entries == old(entries) + [r.value]
    {
      var user := CurrentUser();
      if user.None? {
        return Err(LoginRequired);
      }
      var start := ParseDateTimeLocal(startText);
      if start.None? {
        return Err(MalformedDateTime);
      }
      var end := ParseDateTimeLocal(endText);
      if end.None? {
        return Err(MalformedDateTime);
      }
      var entry := JournalEntry(NextEntryId(entries), title, description, experience, start.value, end.value, user.value.id);
      AddEntryKeepsConsistent(users, entries, entry);
      entries := entries + [entry];
      r := Ok(entry);
    }

    /**
      view_entry: the entry when it exists and the current user owns it,
      NotFound otherwise. The route only matches unsigned integers.
    */
    function ViewEntry(id: nat): (r: Result<JournalEntry>)
      reads this
      ensures CurrentUser().None? ==> r == Err(LoginRequired)
      ensures r.Ok? ==> r.value in entries && r.value.id == id && session == Some(r.value.userId)
      ensures CurrentUser().Some? && r.Err? ==> r.error == NotFound
    {
      var user := CurrentUser();
      if user.None? then Err(LoginRequired) else ViewEntryFor(entries, user.value.id, id)
    }

    /**
      download_entries: the CSV rows of the current user's entries within the
      bounds, ordered by start time.
    */
    method DownloadEntries(fromText: Option<string>, toText: Option<string>) returns (r: Result<seq<Row>>)
      requires Valid()
      ensures r.Err? <==> CurrentUser().None?
      ensures r.Err? ==> r.error == LoginRequired
      ensures r.Ok? ==> IsCsvOf(r.value, ExportEntries(entries, CurrentUser().value.id, fromText, toText))
    {
      var user := CurrentUser();
      if user.None? {
        return Err(LoginRequired);
      }
      var selected := ExportEntries(entries, user.value.id, fromText, toText);
      var rows := WriteCsv(selected);
      r := Ok(rows);
    }
  }

  /** The owner of a stored entry, logged in, gets exactly that entry from view_entry. */
  lemma OwnerViewsOwnEntry(journal: Journal, e: JournalEntry)
    requires journal.Valid()
    requires e in journal.entries && journal.session == Some(e.userId)
    ensures e.id >= 0 && journal.ViewEntry(e.id) == Ok(e)
  {
    OwnerSeesEntry(journal.entries, e);
  }

  // -------------------------------------------------------- scenarios

  /**
    Register, log in, add one entry from 2024-01-01T09:00 to 10:00 and export
    2024-01-01 to 2024-01-02: the CSV is the header and exactly that entry's row.
  */
  method ExportScenario(h: Hasher, salt: string) returns (r: Result<seq<Row>>)
    requires Sound(h)
    ensures r == Ok([Header, ["T", "D", "good", "2024-01-01 09:00", "2024-01-01 10:00"]])
  {
    var journal := new Journal();
    var registered := journal.Register(h, "alice", "secret", salt);
    var alice := registered.value;
    assert journal.users == [alice] && alice.username == "alice";
    RegisteredUserCanLogIn([], h, alice, "secret", salt);
    var loggedIn := journal.Login(h, "alice", "secret");
    assert journal.session == Some(alice.id) && journal.CurrentUser() == Some(alice);
    ExampleStartParses();
    ExampleEndParses();
    var added := journal.NewEntry("T", "D", "good", "2024-01-01T09:00", "2024-01-01T10:00");
    var e := added.value;
    assert e == JournalEntry(e.id, "T", "D", "good", DateTime(2024, 1, 1, 9, 0), DateTime(2024, 1, 1, 10, 0), alice.id);
    assert journal.entries == [e];
    r := journal.DownloadEntries(Some("2024-01-01"), Some("2024-01-02"));
    OneEntryExport(e.id, alice.id);
    CsvOfOneEntry(r.value, e);
  }

  /** After logging out, the dashboard redirects to the login page instead of listing entries. */
  method LogoutScenario(journal: Journal) returns (r: Result<seq<JournalEntry>>)
    requires journal.Valid()
    modifies journal
    ensures r == Err(LoginRequired)
  {
    var _ := journal.Logout();
    r := journal.Dashboard();
  }
}
