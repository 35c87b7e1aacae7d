# Phone directory — a Dafny model of its core

The phone directory is a small Flask application. Anyone can read the contact
list. An administrator logs in to create, edit and delete contacts, and moves
contacts in and out of Excel workbooks. This project models the parts of it
that are sequential logic and proves what they guarantee:

- `models.dfy` (`app/models.py`): the `Contact` row and its column widths.
  The contact table is a map from primary key to row, inside a `Database`
  class. That class also holds the ORM session: entries added but not yet
  committed, the next key to assign, and a count of commits. `AdminUser`
  is a class whose `SetPassword` rewrites the stored hash. The hash library
  is abstract: a `Hasher` value with the three requirements the application
  relies on.
- `forms.dfy` (`app/forms.py`): the WTForms validator lists of `ContactForm`
  and `LoginForm` as predicates (`DataRequired`, `Optional`, `Length`, and
  `Email` as a parameter). It also proves how the form bounds relate to the
  column widths.
- `spreadsheet.dfy` (`app/utils.py`): a worksheet is a sequence of rows of
  cell values. `ExportToExcel` writes the header row and one row per contact
  with two loops. `ImportFromExcel` walks the data rows, adds one contact per
  row with a truthy name, and commits once. Both are proved against
  specification functions, and an export→import round trip is proved.
- `paths.dfy`: the path functions the import handler uses. These are the
  suffix test, `os.path.splitext` and `os.path.join`.
- `routes.dfy` (`app/routes.py`): the login decision; create, edit and
  delete on the table; and the import handler. The import handler runs the
  upload gate, builds the temporary file name, saves the file to an
  `UploadFolder`, imports it and always removes the temporary file. The import outcome depends
  on the temporary path as well as on the content. The spreadsheet library
  refuses a path whose extension, lower-cased, is not `.xlsx`, `.xlsm`,
  `.xltx` or `.xltm`.
- `client.dfy` (`static/js/main.js`): `formatPhoneNumber` as the function
  `FormatPhone`, plus a `PhoneInput` element whose method rewrites its
  value. The live search is a case-insensitive substring predicate, and
  `ApplySearch` sets the display style of every row.

The model follows the code in these points:

- Import copies cells as they are. It neither trims nor stringifies them.
- Import commits once, after the loop. A row that raises leaves the table
  unchanged.
- The handler's own format check on an upload is the literal `.xlsx`
  suffix test. Beyond it, only the spreadsheet library's check on the
  temporary path's extension applies. The code has no size check, no
  container check and no HTML sanitizer.
- Export writes contacts in the order the query returns them. The query has
  no `ORDER BY`.

## Model

| member | source | states |
|---|---|---|
| `Models.AppendedSpec` | phone_directory/app/utils.py:44-56 | inserting entries adds one row per entry, in order, under consecutive fresh ids, and keeps every existing row unchanged; the table stays keyed by id |
| `Models.AppendedSize` | phone_directory/app/utils.py:53-56 | inserting n entries grows the table by exactly n rows: an insert never overwrites (no upsert) |
| `Models.PrimaryKeyUnique` | phone_directory/app/models.py:7 | no two rows of the contact table share an id |
| `Models.Database.Add` | phone_directory/app/utils.py:53 | `db.session.add` queues the entry and writes nothing to the table |
| `Models.Database.Commit` | phone_directory/app/utils.py:56 | a commit turns every queued entry into a row, in the order they were added, under the next ids, and empties the session |
| `Models.Database.Update` | phone_directory/app/routes.py:79-85 | assigning the five fields and committing replaces that row's fields under the same key and changes nothing else |
| `Models.Database.Remove` | phone_directory/app/routes.py:95-96 | deleting and committing removes exactly that key |
| `Models.Database.Get` | phone_directory/app/routes.py:75 | the lookup by id finds a row exactly when the id is in the table, and the row carries that id |
| `Models.Database.Discard` | phone_directory/app/routes.py:134-138 | the teardown after a request drops every entry that was added and not committed, and leaves the table and commit count as they were: a failed import leaves nothing behind |
| `Models.AdminUser.CheckPassword` | phone_directory/app/models.py:25-26 | the stored hash is checked against the given password (no contract: the guarantee is stated by `SetPassword`) |
| `Models.AdminUser.SetPassword` | phone_directory/app/models.py:22-26 | stores the hash of the password; under the hash requirements, the stored value is not the password, `check_password` accepts that password and rejects every other one |
| `Models.FindAdmin` | phone_directory/app/routes.py:31 | the lookup by username returns an account with that name, or none when no account has it |
| `Models.FindAdminUnique` | phone_directory/app/models.py:19 | with unique usernames the lookup returns the one account of that name |
| `Forms.ContactFormValid` | phone_directory/app/forms.py:5-11 | (definition, no contract) the name is required and at most 100 characters; each phone is blank or at most 20; the email is blank, or well-formed and at most 100; notes are free |
| `Forms.LoginFormValid` | phone_directory/app/forms.py:13-16 | (definition, no contract) both the username and the password are required |
| `Forms.AcceptedFormFits` | phone_directory/app/forms.py:6-9 | an accepted contact form has a non-empty name and fits the widths 100/20/20/100, unless an optional field is an over-long run of whitespace |
| `Forms.FittingEntryAccepted` | phone_directory/app/forms.py:6-10 | every record with a non-blank name that fits the columns and has a blank or well-formed email is accepted, and the form carries its fields unchanged |
| `Forms.BoundsAreTight` | phone_directory/app/forms.py:6-9 | non-blank data one character over its width (101, 21, 21, 101) is rejected |
| `Forms.WhitespacePhoneOverflows` | phone_directory/app/forms.py:7 | a work phone of 21 spaces passes validation yet does not fit its 20-character column |
| `Forms.LoginNeedsBoth` | phone_directory/app/forms.py:14-15 | a login form validates only with a non-empty username and a non-empty password |
| `Spreadsheet.ExportToExcel` | phone_directory/app/utils.py:7-33 | the sheet has 1 + N rows: row 1 holds the five headers in fixed order, and row k + 2 holds contact k's name, work phone, mobile phone, email and notes |
| `Spreadsheet.ImportFromExcel` | phone_directory/app/utils.py:35-57 | an unreadable workbook or unreadable row changes nothing and reports the error; otherwise the table gains exactly the imported entries, after one commit, and the count returned is their number |
| `Spreadsheet.ImportFailsIff` | phone_directory/app/utils.py:44-52 | import fails exactly when some data row has no first cell, or has a truthy name and fewer than five cells |
| `Spreadsheet.ImportCopiesKeptRows` | phone_directory/app/utils.py:41-54 | a successful import yields one entry per row with a truthy first cell, in row order, with the five cells copied unchanged |
| `Spreadsheet.ExportImportRoundTrip` | phone_directory/app/utils.py:20-53 | importing an export of contacts C succeeds and yields exactly the members of C with a non-empty name, field for field, in order |
| `Spreadsheet.ExportImportDoubles` | phone_directory/app/utils.py:21-56 | importing an export of any N contacts with non-empty names adds exactly N rows to any table |
| `Spreadsheet.EnumerationSize` | phone_directory/app/utils.py:20 | a query that returns every row of the table exactly once returns as many contacts as the table has rows |
| `Spreadsheet.ReimportDoublesTable` | phone_directory/app/utils.py:20-56 | exporting the whole contact table and importing the file back succeeds and leaves twice as many rows |
| `Spreadsheet.ImportEntries` | phone_directory/app/utils.py:41-54 | import yields at most one entry per data row |
| `Spreadsheet.WorkbookPathByExtension` | phone_directory/app/utils.py:37 | the spreadsheet library refuses a path without an extension, and opens paths ending in `.xlsx` in either case |
| `Routes.Login` | phone_directory/app/routes.py:24-39 | a logged-in user goes to the dashboard; a session is established exactly when a valid submitted form matches an account's username and password, and then the response goes to a non-empty `next` or else the dashboard; otherwise the form is re-rendered, with a message when the credentials were wrong |
| `Routes.Create` | phone_directory/app/routes.py:53-70 | a valid submission adds exactly one contact, under a fresh id, holding the five submitted values, with one commit, and keeps every other row; otherwise nothing changes |
| `Routes.Edit` | phone_directory/app/routes.py:72-89 | a missing id answers not found and changes nothing; a valid submission overwrites exactly the five fields of that contact, keeps its id and every other row, with one commit |
| `Routes.Delete` | phone_directory/app/routes.py:91-98 | a missing id answers not found and changes nothing; otherwise exactly that contact is removed, with one commit |
| `Routes.XlsxSuffixExact` | phone_directory/app/routes.py:124 | a name passes the suffix test exactly when it is some stem followed by `.xlsx` |
| `Routes.UploadGate` | phone_directory/app/routes.py:115-124 | a missing file part or an empty filename stops the upload as "no file"; a name ending in `.xlsx` proceeds; any other name is a format error |
| `Routes.GateIsCaseSensitive` | phone_directory/app/routes.py:124 | `contacts.XLSX` and `contacts.xls` are rejected and `contacts.xlsx` proceeds |
| `Paths.LastIndex` | phone_directory/app/routes.py:127 | the position of the last occurrence of a character, or -1 when it does not occur |
| `Paths.SplitExt` | phone_directory/app/routes.py:127 | stem and extension concatenate to the name; the extension is empty or a dot followed by no dot and no slash; it is non-empty exactly when the last path component has a dot with some other character before it |
| `Paths.SplitExtXlsx` | phone_directory/app/routes.py:126-128 | a name whose stem has no slash and is not all dots keeps `.xlsx` as its extension, under any directory |
| `Paths.SplitExtNoDot` | phone_directory/app/routes.py:127 | a path without a dot has no extension |
| `Paths.Join` | phone_directory/app/routes.py:129 | a relative name is placed after the folder and a slash; an absolute name replaces the folder |
| `Routes.TempName` | phone_directory/app/routes.py:128 | the temporary name is the sanitized name with `_` + hex inserted before its extension: cutting that out gives the sanitized name back, and the name still ends in the extension |
| `Routes.KeptSuffixImports` | phone_directory/app/routes.py:126-135 | when the sanitized name keeps `.xlsx`, the temporary path keeps it too, and the import outcome is that of the file's content |
| `Routes.LostSuffixFails` | phone_directory/app/routes.py:126-138 | when the sanitized name has no dot, for example `xlsx` from `Контакты.xlsx`, the temporary path has no extension and the import fails whatever the file holds |
| `Routes.SaveAndImport` | phone_directory/app/routes.py:131-142 | the temporary file is gone afterwards and only it; the table gains the imported entries with one commit, or stays unchanged on any error, and the count or the error is flashed |
| `Routes.ImportContacts` | phone_directory/app/routes.py:112-146 | the handler always redirects to the dashboard; without a file or with a wrong suffix it changes nothing; otherwise the temporary file is gone afterwards and only it, the table gains the imported entries or stays unchanged, and the count or error is flashed; the outcome depends on the temporary path's extension as well as on the content |
| `Client.Digits` | phone_directory/static/js/main.js:29 | removing the non-digits never lengthens the value |
| `Client.DigitsAreDigits` | phone_directory/static/js/main.js:29 | the working value holds only digits |
| `Client.DigitsKeepEveryDigit` | phone_directory/static/js/main.js:29 | every digit of the input is kept, as many times as it occurs |
| `Client.DigitsEmptyIff` | phone_directory/static/js/main.js:29 | the working value is empty exactly when the input has no digit |
| `Client.Truncated` | phone_directory/static/js/main.js:32-34 | a value of 11 or more digits becomes exactly its first 11; shorter values are kept whole |
| `Client.Substring` | phone_directory/static/js/main.js:38-40 | for ends within the string in order, the result is the slice between them; it is never longer than the string or the requested range |
| `Client.SubstringSwap` | phone_directory/static/js/main.js:38-40 | swapping the two ends gives the same result |
| `Client.SubstringClamps` | phone_directory/static/js/main.js:38-40 | an end past the string reads as its length, and a negative start reads as 0 |
| `Client.FormatPhone` | phone_directory/static/js/main.js:27-44 | the formatted value has at most 17 characters, and it is empty exactly when the input has no digit |
| `Client.FormatPhoneDigits` | phone_directory/static/js/main.js:29-41 | the digits of the formatted value are 7 followed by the kept digits without their first one, in order |
| `Client.FormatPhoneIdempotent` | phone_directory/static/js/main.js:29-41 | formatting a formatted value returns it unchanged |
| `Client.PhoneInput.FormatPhoneNumber` | phone_directory/static/js/main.js:27-44 | the input's value is replaced by its formatted form |
| `Client.LowerChar` | phone_directory/static/js/main.js:14-19 | the result is never a Basic Latin or Cyrillic capital, and every other character is kept |
| `Client.Lower` | phone_directory/static/js/main.js:14-19 | lower-casing keeps the length and maps each character on its own |
| `Client.Contains` | phone_directory/static/js/main.js:20 | a pattern is found only in a text at least as long, and the empty pattern is found everywhere |
| `Client.Visible` | phone_directory/static/js/main.js:19-20 | a row is shown only if its text is at least as long as the search |
| `Client.ContainsIff` | phone_directory/static/js/main.js:20 | the substring test holds exactly when the pattern occurs at some position of the text |
| `Client.EmptySearchShowsAll` | phone_directory/static/js/main.js:14-20 | an empty search shows every row |
| `Client.SearchIgnoresCase` | phone_directory/static/js/main.js:14-19 | lower-casing the row text or the search does not change visibility |
| `Client.SearchNarrows` | phone_directory/static/js/main.js:19-20 | a row visible for a longer search is visible for each of its prefixes |
| `Client.ApplySearch` | phone_directory/static/js/main.js:13-21 | every row whose lower-cased text contains the lower-cased search is shown, and every other row is hidden |

## Left out

- Flask plumbing is left out: templates, `url_for`, flash storage,
  `send_file`, `login_required`, session cookies and CSRF. A response is a
  tagged value (redirect, render or not found). The logged-in user is an
  optional id. `submitted` stands for the request being a form submission.
- The `index`, `dashboard` and `logout` handlers are left out. The first two
  only read the whole table into a template; `logout` only ends the session.
  The `export` handler is left out beyond `ExportToExcel`: it only streams
  the buffer under a timestamped name.
- Workbook files are left out: openpyxl loading and saving and the xlsx
  container. A saved upload is its rows, or nothing when it cannot be
  opened. Of the library's own checks, only the one on the path's extension
  is modelled (`Spreadsheet.WorkbookPath`). Every cell is text or empty: numbers, dates, booleans and formulas
  are not modelled. Export→import takes the written cell values back
  unchanged.
- `Spreadsheet.ExportToExcel`: the order of contacts is the query result
  given as a parameter. `Contact.query.all()` has no `ORDER BY`, so the
  database chooses that order.
- Foreign calls are parameters: `secure_filename`, the `uuid4().hex` string,
  `Email()` syntax (the `isEmail` predicate), and werkzeug's password hash
  (a `Hasher` with its salt).
- `Models.AdminUser.SetPassword`: its `check_password` guarantees hold only
  for a hasher meeting `Sound`. The real hash library is not modelled.
- `Routes.ImportContacts`: `file.save` failing is not modelled. That call
  sits outside the `try`. `secure_filename` is a parameter, so which names
  keep the `.xlsx` suffix is not derived. For a name made only of non-ASCII
  letters it returns `xlsx`; `Routes.LostSuffixFails` shows that such an
  upload then always fails to import.
- `Models.Database.Commit`: ids are never reused. A new row takes the next
  id after every id ever assigned, as on a database with sequences or
  AUTOINCREMENT. On the default SQLite database a new row takes the largest
  id in the table plus one. There, deleting the contact with the largest id
  and creating another gives the new contact the old id, and the model does
  not reproduce that.
- `Forms.AcceptedFormFits`: states the column fit only for forms whose
  optional fields are not over-long whitespace. WTForms' `Optional()` stops
  the validator chain on whitespace-only data, so `Length` never sees it.
  `Forms.WhitespacePhoneOverflows` exhibits such a form.
- The String(n) column widths are not a table invariant. Import never checks
  them, and the model does not make the database reject over-long values.
  The `password_hash` width is not modelled.
- `Routes.Login`: usernames are unique, as the table's unique constraint
  requires. A `next` URL is followed whatever it points to.
- In `Edit`, a field absent from the submission is filled from the stored
  contact (`obj=`). The model takes the form data as submitted.
- The 16 MiB upload limit is left out. The framework enforces it, not the
  handlers.
- `confirmDelete` is left out. It is a browser confirmation dialog.
- `Client.LowerChar` lower-cases only Basic Latin and the Cyrillic capitals
  U+0400–U+042F. Full Unicode case mapping is not modelled.
- The setup scripts and configuration are left out: database creation, the
  seeding of the first administrator and the sample contacts, schema
  printing and server start-up.
