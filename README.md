# flask-journal store, modelled in Dafny

A model of the journal web application's store and request handlers
(`routes.py`, `models.py`). Users register and log in. They record dated
journal entries, view their own entries one at a time, and export them as
CSV within an optional date range.

The store is the class `Routes.Journal`. It holds the `user` table, the
`journal_entry` table (both as sequences in insertion order) and the
session of the client making requests. The session is the user id that
`login_user` stored, or `None`. The handlers that write (register, login,
logout, new_entry) are methods whose `ensures` give the whole new state.
The handlers that only read (dashboard, view_entry) are functions.
download_entries is a method: it builds the query step by step and then
runs the CSV-writing loop.

Modules:

- `Timestamps`: minute-precision date-times. This covers the two strict
  `strptime` formats the handlers read (`YYYY-MM-DDTHH:MM`, `YYYY-MM-DD`)
  and the `strftime('%Y-%m-%d %H:%M')` cell format. It also defines the
  chronological order the store compares with.
- `Models`: the `User` and `JournalEntry` rows and the schema constraints
  (unique usernames, unique ids, foreign key, NOT NULL columns), plus the
  ORM queries the handlers use.
- `Passwords`: the password-hashing library as a parameter. The only
  assumption made about it, `Sound`, is that `check(hash(p, salt), p)` holds.
- `Export`: the export query, the ordering by start time and the CSV rows.
- `Routes`: the handlers, the `Journal` class and two end-to-end client
  scenarios.

`login_required` is modelled as an outcome, not as a precondition. When no
user is logged in, a protected handler answers `Err(LoginRequired)` (the
redirect to the login page) and changes nothing. The errors the source
leaves uncaught are also explicit outcomes, and each leaves the store
unchanged. A duplicate username is an IntegrityError at commit. A malformed
entry time is a ValueError before the add.

`new_entry` (routes.py:51-71) does not check that title, description or
experience is non-empty, so the model accepts empty strings. Empty strings
also satisfy the NOT NULL columns.

## Model

| member | source | states |
|---|---|---|
| Timestamps.ParseDateTimeLocal | routes.py:59-60 | a form time that parses (`%Y-%m-%dT%H:%M`) is a real calendar time: year 1-9999, month 1-12, day within the month (leap years counted), hour below 24, minute below 60 |
| Timestamps.ParseLocalCanonical | routes.py:59-60 | only canonical text parses: formatting a parsed form time gives back exactly the input text |
| Timestamps.FormatLocalParses | routes.py:59-60 | every valid minute-precision time is reached: parsing its own form text gives it back |
| Timestamps.CellOfFormInput | routes.py:130-131 | a form time that parses is exported as the same text with the `T` replaced by a space |
| Timestamps.ParseDate | routes.py:107-108 | an export bound that parses (`%Y-%m-%d`) is a valid date at midnight |
| Timestamps.ParseDateCanonical | routes.py:107-108 | only canonical date text parses: formatting the parsed date gives the input back |
| Timestamps.FormatDateParses | routes.py:107-108 | every valid date at midnight is the parse of its own `YYYY-MM-DD` text |
| Timestamps.NotAfterIsTotalOrder | routes.py:115-119 | the order used by the bound filters and by order_by is reflexive, total, antisymmetric and transitive |
| Models.Filter | routes.py:113-117 | a query filter returns exactly the rows that pass the condition |
| Models.FilterCount | routes.py:113-117 | a query filter keeps each passing row as often as the table holds it, and no other row |
| Models.FilterAppend | routes.py:113 | filtering a concatenation is the concatenation of the filtered parts |
| Models.FindUserById | routes.py:13 | `User.query.get(id)` returns a stored user with that id, and None exactly when no user has it |
| Models.FindUserByName | routes.py:34 | `filter_by(username=...).first()` returns a stored user with that name, and None exactly when no user has it |
| Models.FindEntryById | routes.py:80 | `JournalEntry.query.get(id)` returns a stored entry with that id, and None exactly when none has it |
| Models.SameIdSameEntry | models.py:12 | in a table with unique primary keys, two entries with the same id are the same entry |
| Models.NameLookupIsExact | models.py:7 | with unique usernames, a lookup by a user's name finds exactly that user |
| Models.NextUserId | models.py:6 | the id given to a new user is positive and larger than every id in use, so it is fresh |
| Models.NextEntryId | models.py:12 | the id given to a new entry is positive and larger than every id in use, so it is fresh |
| Models.AddUserKeepsConsistent | models.py:6-8 | inserting a user with a fresh positive id and an unused name keeps every schema constraint |
| Models.AddEntryKeepsConsistent | models.py:12-18 | inserting an entry with a fresh positive id, an existing author and real times keeps every schema constraint |
| Models.RelationshipIsSymmetric | models.py:9 | every entry has an author in the table, and an entry is among `user.entries` exactly when its `author` is that user |
| Export.ParseBounds | routes.py:102-110 | the bounds are present only when BOTH fields are given and BOTH parse; otherwise both are dropped |
| Export.InsertByStart | routes.py:119 | inserting into an ordered result keeps it ordered by start time and adds exactly that entry |
| Export.SortByStart | routes.py:119 | the ordered result is sorted ascending by start time and is a permutation of the query result |
| Export.ExportEntries | routes.py:113-119 | the exported entries are sorted by start time, and an entry is exported exactly when it is in the table, is the user's, starts at or after the from bound and ends at or before the to bound |
| Export.ExportCount | routes.py:113-119 | each selected entry is exported exactly as often as the table holds it, and every other entry zero times |
| Export.ExportSeesOnlyOwnEntries | routes.py:113 | the export is the same whether computed over the whole table or over the user's own entries only |
| Export.UnboundedExportIsAllOwnEntries | routes.py:109-117 | with a bound missing or malformed, the export holds all of the user's entries |
| Export.ExportAfterEveryStartIsEmpty | routes.py:114-115 | when both bounds parse and the from bound is later than the start of every one of the user's entries, no entry is exported (the CSV is the header alone) |
| Export.EntryRow | routes.py:126-132 | a data row has as many cells as the header |
| Export.WriteCsv | routes.py:122-132 | the rows are the header `Title,Description,Experience,From,To`, then one row per entry in order: title, description, experience, start and end as `YYYY-MM-DD HH:MM` |
| Export.OneEntryExport | routes.py:113-132 | an entry from 2024-01-01T09:00 to 10:00, exported between 2024-01-01 and 2024-01-02, is the only entry exported, and its row is `T,D,good,2024-01-01 09:00,2024-01-01 10:00` |
| Export.CsvOfOneEntry | routes.py:124-132 | the CSV of a single entry is exactly the header followed by that entry's row |
| Routes.Authenticate | routes.py:34-35 | credentials are accepted exactly when a user with that name exists and the password checks against its stored hash |
| Routes.RegisteredUserCanLogIn | routes.py:23-35 | with a sound hasher, a user just registered can log in with the password they registered |
| Routes.LoginDependsOnlyOnNamedUser | routes.py:34-35 | with unique usernames, login succeeds exactly when some stored user has that name and a hash that checks |
| Routes.ViewEntryFor | routes.py:80-84 | an entry is returned only if it is stored, has the requested id and belongs to the caller; every other answer is NotFound |
| Routes.OwnerSeesEntry | routes.py:80-85 | the owner of a stored entry always gets it |
| Routes.ViewEntrySeesOnlyOwnEntries | routes.py:80-84 | the answer depends only on the caller's own entries, so another user's entry cannot be told apart from a missing id |
| Routes.EntriesOfIgnoresOthers | routes.py:45 | entries of other users added to the table do not change a user's list |
| Routes.Journal.LoadUser | routes.py:11-13 | the user loader returns the stored user with that id, or None exactly when there is none |
| Routes.Journal.CurrentUser | routes.py:11-13 | the current user is the stored user the session names; in a valid store there is one exactly when the session is set |
| Routes.Journal.Register | routes.py:20-28 | a taken username stores nothing and fails; otherwise exactly one user is appended with a fresh id, the name and `hash(password)`, never the raw password. The session and the entries are unchanged and the schema constraints still hold |
| Routes.Journal.Login | routes.py:32-40 | on accepted credentials the session is set to that user; otherwise the session is unchanged and InvalidCredentials is answered |
| Routes.Journal.Logout | routes.py:87-91 | a logged-in session is cleared; without a login the answer is LoginRequired and nothing changes |
| Routes.Journal.Dashboard | routes.py:42-46 | the list holds exactly the stored entries whose owner is the logged-in user; without a login the answer is LoginRequired |
| Routes.Journal.NewEntry | routes.py:48-73 | with both times parsing, exactly one entry is appended with the submitted texts, the parsed times, a fresh id and the current user as owner, and nothing else changes. A malformed time or a missing login stores nothing. Start after end is accepted |
| Routes.Journal.ViewEntry | routes.py:77-85 | a returned entry has the requested id and belongs to the logged-in user; a logged-in user otherwise gets NotFound, a client without a login gets LoginRequired |
| Routes.OwnerViewsOwnEntry | routes.py:80-85 | in a valid store, a logged-in user who owns a stored entry gets exactly that entry from view_entry, the converse of the ViewEntry contract |
| Routes.Journal.DownloadEntries | routes.py:98-142 | the answer is the CSV rows of the export query for the logged-in user and the given bounds; without a login it is LoginRequired |
| Routes.ExportScenario | routes.py:19-132 | register, login, new_entry and download on a fresh store give the header and the single expected row |
| Routes.LogoutScenario | routes.py:42-91 | after logout, the dashboard answers LoginRequired instead of listing entries |

## Left out

- Flask routing, templates, `flash` messages, `redirect`/`url_for` targets and the GET branches that only render a form: these are framework plumbing with nothing to state. `index` is left out because it only renders a page.
- app.py (the app factory, `db.create_all()`, the debug server) is not part of this model; `Routes.Journal.constructor` stands for the empty tables it creates.
- A form field missing from a POST (`request.form[...]` raising KeyError, answered with HTTP 400) is not modelled; handler inputs are plain strings. The export's two optional fields are modelled as `Option<string>`.
- Timestamps.ParseDateTimeLocal: strptime's leniency is not modelled. The parser accepts only the canonical fixed-width text, so inputs such as `2024-1-5T9:05`, which strptime accepts, are rejected here.
- Timestamps.ParseDate: the same strictness applies to the export bounds.
- Timestamps.CellOfFormInput: years below 1000 are formatted zero-padded to four digits; the platform's `%Y` may print them without padding.
- Export.SortByStart: the store orders entries with equal start times in no promised order; the model fixes one such order. Only sortedness and the permutation are stated.
- The password-hash algorithm and its random salt: `Passwords.Hasher` is a parameter and the salt an argument. Nothing beyond `Sound` (a hash checks against its own password) is assumed.
- SQLAlchemy sessions, transactions and the IntegrityError traceback: an insert that violates the UNIQUE constraint fails atomically and leaves the tables unchanged.
- The CSV writer's quoting and `\r\n` terminators, and joining the rows into one text: the output is modelled as a sequence of rows of cells.
- `datetime.now()` in the download filename and the `datetime.utcnow` column defaults: both read the clock, and the handlers always set both times anyway.
- Declared column lengths (`String(150)`, `String(200)`, `String(20)`): whether they are enforced depends on the database backend.
- Session cookies and concurrency: the model has one client's session and runs requests one at a time.
