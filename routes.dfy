/** The request handlers of the admin area: the login decision, create, edit
    and delete on the contact table, and the spreadsheet upload with its
    temporary file. Responses are values: a redirect, a rendered template or
    a not-found answer, with the one-shot message flashed for the next page. */
module Routes {
  import opened Outcomes
  import opened Models
  import opened Forms
  import opened Spreadsheet
  import opened Paths

  /** The one-shot status messages the handlers flash. */
  datatype Flash =
    | BadCredentials
    | ContactCreated
    | ContactUpdated
    | ContactDeleted
    | NoFileSelected
    | Imported(count: nat)
    | ImportFailed(error: ImportError)
    | WrongFormat

  /** Where a redirect goes: the admin dashboard or a caller-supplied URL. */
  datatype Location = Dashboard | Url(path: string)

  datatype Response =
    | Redirect(to: Location, flash: Option<Flash>)
    | Render(template: string, flash: Option<Flash>)
    | NotFound

  /** The response of the login handler and the session user it leaves. */
  datatype LoginOutcome = LoginOutcome(response: Response, session: Option<nat>)

  /** Some account has the submitted username and accepts the submitted password. */
  ghost predicate CredentialsMatch(h: Hasher, admins: seq<AdminUser>, form: LoginForm)
    reads admins
  {
    && LoginFormValid(form)
    && exists a :: a in admins && a.username == form.username.value && a.CheckPassword(h, form.password.value)
  }

  /** The `next` query parameter is used when it is present and non-empty. */
  function AfterLogin(next: Option<string>): Location {
    if next.Some? && next.value != "" then Url(next.value) else Dashboard
  }

  /** login: `session` is the user already logged in, `submitted` tells a POST
      from a GET. An authenticated user goes to the dashboard; matching
      credentials log the account in and go to `next` or the dashboard;
      anything else re-renders the form, with a message when the form was
      submitted and valid. Usernames are unique (the table's constraint). */
  function Login(h: Hasher, admins: seq<AdminUser>, session: Option<nat>, submitted: bool,
                 form: LoginForm, next: Option<string>): (r: LoginOutcome)
    reads admins
    requires UniqueUsernames(admins)
    ensures session.Some? ==> r == LoginOutcome(Redirect(Dashboard, None), session)
    ensures session.None? ==> (r.session.Some? <==> submitted && CredentialsMatch(h, admins, form))
    ensures session.None? && r.session.Some? ==>
      && r.response == Redirect(AfterLogin(next), None)
      && exists a :: a in admins && a.id == r.session.value && a.username == form.username.value
    ensures r.session.None? ==>
      r.response == Render("admin/login.html", if submitted && LoginFormValid(form) then Some(BadCredentials) else None)
  {
    if session.Some? then LoginOutcome(Redirect(Dashboard, None), session)
    else if !(submitted && LoginFormValid(form)) then LoginOutcome(Render("admin/login.html", None), None)
    else
      var found := FindAdmin(admins, form.username.value);
      if found.Some? && found.value.CheckPassword(h, form.password.value) then
        LoginOutcome(Redirect(AfterLogin(next), None), Some(found.value.id))
      else
        assert !CredentialsMatch(h, admins, form) by {
          forall a | a in admins && a.username == form.username.value
            ensures !a.CheckPassword(h, form.password.value)
          {
            FindAdminUnique(admins, a);
          }
        }
        LoginOutcome(Render("admin/login.html", Some(BadCredentials)), None)
  }

  /** create: a submitted valid form adds exactly one contact holding the five
      submitted values, under a fresh id, with one commit; every existing
      contact is kept. Otherwise the form is rendered again and nothing changes. */
  method Create(db: Database, submitted: bool, form: ContactForm, isEmail: string -> bool)
    returns (resp: Response)
    requires db.Valid() && db.pending == []
    modifies db
    ensures db.Valid() && db.pending == []
    ensures submitted && ContactFormValid(form, isEmail) ==>
      && resp == Redirect(Dashboard, Some(ContactCreated))
      && old(db.nextId) !in old(db.contacts)
      && db.contacts == old(db.contacts)[old(db.nextId) := ContactOf(old(db.nextId), ToEntry(form))]
      && |db.contacts| == |old(db.contacts)| + 1
      && db.commits == old(db.commits) + 1
    ensures !(submitted && ContactFormValid(form, isEmail)) ==>
      && resp == Render("admin/create.html", None)
      && db.contacts == old(db.contacts) && db.commits == old(db.commits)
  {
    if submitted && ContactFormValid(form, isEmail) {
      var e := ToEntry(form);
      ghost var before, n := db.contacts, db.nextId;
      db.Add(e);
      db.Commit();
      assert [e][1..] == [];
      AppendedSize(before, n, [e]);
      resp := Redirect(Dashboard, Some(ContactCreated));
    } else {
      resp := Render("admin/create.html", None);
    }
  }

  /** edit: an unknown id answers not found; a submitted valid form overwrites
      the five fields of that contact, keeping its id, with one commit; every
      other contact is kept. Otherwise the form is rendered and nothing changes. */
  method Edit(db: Database, id: nat, submitted: bool, form: ContactForm, isEmail: string -> bool)
    returns (resp: Response)
    requires db.Valid() && db.pending == []
    modifies db
    ensures db.Valid() && db.pending == []
    ensures id !in old(db.contacts) ==>
      resp == NotFound && db.contacts == old(db.contacts) && db.commits == old(db.commits)
    ensures id in old(db.contacts) && submitted && ContactFormValid(form, isEmail) ==>
      && resp == Redirect(Dashboard, Some(ContactUpdated))
      && db.contacts == old(db.contacts)[id := ContactOf(id, ToEntry(form))]
      && db.contacts.Keys == old(db.contacts).Keys && db.contacts[id].id == id
      && db.commits == old(db.commits) + 1
    ensures id in old(db.contacts) && !(submitted && ContactFormValid(form, isEmail)) ==>
      && resp == Render("admin/edit.html", None)
      && db.contacts == old(db.contacts) && db.commits == old(db.commits)
  {
    var found := db.Get(id);
    if found.None? {
      return NotFound;
    }
    if submitted && ContactFormValid(form, isEmail) {
      db.Update(id, ToEntry(form));
      resp := Redirect(Dashboard, Some(ContactUpdated));
    } else {
      resp := Render("admin/edit.html", None);
    }
  }

  /** delete: an unknown id answers not found and changes nothing; otherwise
      exactly that contact is removed, with one commit. */
  method Delete(db: Database, id: nat) returns (resp: Response)
    requires db.Valid() && db.pending == []
    modifies db
    ensures db.Valid() && db.pending == []
    ensures id !in old(db.contacts) ==>
      resp == NotFound && db.contacts == old(db.contacts) && db.commits == old(db.commits)
    ensures id in old(db.contacts) ==>
      && resp == Redirect(Dashboard, Some(ContactDeleted))
      && db.contacts == old(db.contacts) - {id}
      && |db.contacts| == |old(db.contacts)| - 1
      && db.commits == old(db.commits) + 1
  {
    var found := db.Get(id);
    if found.None? {
      return NotFound;
    }
    db.Remove(id);
    resp := Redirect(Dashboard, Some(ContactDeleted));
  }

  /** An uploaded file part: its client-side name and what it holds (`None`
      when it is not a workbook the spreadsheet library can open). */
  datatype Upload = Upload(filename: string, content: Option<seq<Row>>)

  /** The suffix test is literal and case-sensitive: a name passes exactly
      when it is some stem followed by ".xlsx". */
  lemma XlsxSuffixExact(name: string)
    ensures EndsWith(name, ".xlsx") <==> exists stem :: name == stem + ".xlsx"
  {
    if EndsWith(name, ".xlsx") {
      assert name == name[..|name| - 5] + ".xlsx";
    }
    if exists stem :: name == stem + ".xlsx" {
      var stem :| name == stem + ".xlsx";
      assert name[|name| - 5..] == ".xlsx";
    }
  }

  /** The three ways the upload gate can end. */
  datatype Gate = NoFileChosen | WrongExtension | Proceed

  /** The checks before anything is saved: a file part must be present and
      named, and the name must end in ".xlsx". */
  function UploadGate(file: Option<Upload>): (g: Gate)
    ensures g == NoFileChosen <==> file.None? || file.value.filename == ""
    ensures g == Proceed <==> file.Some? && EndsWith(file.value.filename, ".xlsx")
  {
    if file.None? || file.value.filename == "" then NoFileChosen
    else if EndsWith(file.value.filename, ".xlsx") then Proceed
    else WrongExtension
  }

  /** Upper-case or other spreadsheet suffixes are turned away. */
  lemma GateIsCaseSensitive(content: Option<seq<Row>>)
    ensures UploadGate(Some(Upload("contacts.XLSX", content))) == WrongExtension
    ensures UploadGate(Some(Upload("contacts.xls", content))) == WrongExtension
    ensures UploadGate(Some(Upload("contacts.xlsx", content))) == Proceed
  {
    assert "contacts.XLSX"[8..] != ".xlsx" by { assert "contacts.XLSX"[9] != ".xlsx"[1]; }
    assert "contacts.xls"[7..] != ".xlsx" by { assert "contacts.xls"[7] != ".xlsx"[0]; }
    assert "contacts.xlsx"[8..] == ".xlsx";
  }

  /** The temporary name: the sanitized name's stem, "_", the random hex, and
      the sanitized extension. Cutting out "_" + hex gives the sanitized name
      back, and the name still ends in its extension. */
  function TempName(sanitized: string, hex: string): (name: string)
    ensures var stem := SplitExt(sanitized).0;
      && |name| == |sanitized| + 1 + |hex|
      && name[|stem|..|stem| + 1 + |hex|] == "_" + hex
      && name[..|stem|] + name[|stem| + 1 + |hex|..] == sanitized
      && EndsWith(name, SplitExt(sanitized).1)
  {
    var (stem, ext) := SplitExt(sanitized);
    var name := stem + "_" + hex + ext;
    assert name[..|stem|] == stem && name[|stem| + 1 + |hex|..] == ext;
    name
  }

  /** The upload folder. */
  const UploadDir := "static/uploads"

  /** The path the upload is saved under. */
  function TempPath(name: string): string {
    Join(UploadDir, name)
  }

  /** What importing the saved file yields: the spreadsheet library refuses a
      path without a workbook extension and a file that is not a workbook;
      otherwise the outcome of reading its rows. */
  function ImportOutcome(path: string, content: Option<seq<Row>>): Result<seq<Entry>, ImportError> {
    if !WorkbookPath(path) || content.None? then Err(InvalidWorkbook)
    else ImportEntries(DataRows(content.value))
  }

  /** The temporary name of a sanitized name ending in ".xlsx". */
  lemma TempNameXlsx(stem: string, hex: string)
    requires Free(stem, '/')
    requires exists i :: 0 <= i < |stem| && stem[i] != '.'
    ensures TempName(stem + ".xlsx", hex) == (stem + "_" + hex) + ".xlsx"
  {
    SplitExtXlsx("", stem);
    assert "" + stem + ".xlsx" == stem + ".xlsx";
    assert "" + stem == stem;
  }

  /** Joining a relative name onto the upload folder. */
  lemma TempPathRelative(base: string)
    requires |base| > 0 && base[0] != '/'
    ensures TempPath(base + ".xlsx") == (UploadDir + "/") + base + ".xlsx"
  {
    assert (base + ".xlsx")[0] == base[0];
    assert UploadDir + "/" + (base + ".xlsx") == (UploadDir + "/") + base + ".xlsx";
  }

  /** stem + "_" + hex has no slash and is not all dots when stem is such. */
  lemma TempStemShape(stem: string, hex: string)
    requires Free(stem, '/') && Free(hex, '/')
    requires exists i :: 0 <= i < |stem| && stem[i] != '.'
    ensures var base := stem + "_" + hex;
      Free(base, '/') && base[0] != '/' && exists i :: 0 <= i < |base| && base[i] != '.'
  {
    var base := stem + "_" + hex;
    var i :| 0 <= i < |stem| && stem[i] != '.';
    assert base[i] == stem[i];
    assert forall j :: 0 <= j < |stem| ==> base[j] == stem[j];
    assert forall j :: |stem| + 1 <= j < |base| ==> base[j] == hex[j - |stem| - 1];
  }

  /** A sanitized name that kept its ".xlsx" suffix (a stem with no slash that
      is not all dots) gives a temporary path the library opens: the outcome
      is that of the file's content. */
  lemma KeptSuffixImports(stem: string, hex: string, content: Option<seq<Row>>)
    requires Free(stem, '/') && Free(hex, '/')
    requires exists i :: 0 <= i < |stem| && stem[i] != '.'
    ensures ImportOutcome(TempPath(TempName(stem + ".xlsx", hex)), content)
         == if content.None? then Err(InvalidWorkbook) else ImportEntries(DataRows(content.value))
  {
    TempNameXlsx(stem, hex);
    var base := stem + "_" + hex;
    TempStemShape(stem, hex);
    TempPathRelative(base);
    SplitExtXlsx(UploadDir + "/", base);
    WorkbookPathByExtension((UploadDir + "/") + base + ".xlsx");
  }

  /** The temporary name of a sanitized name without any dot. */
  lemma TempNameNoDot(sanitized: string, hex: string)
    requires Free(sanitized, '.') && Free(hex, '.')
    ensures TempName(sanitized, hex) == sanitized + "_" + hex
    ensures Free(TempName(sanitized, hex), '.')
  {
    SplitExtNoDot(sanitized);
    var name := sanitized + "_" + hex;
    assert forall j :: 0 <= j < |sanitized| ==> name[j] == sanitized[j];
    assert forall j :: |sanitized| + 1 <= j < |name| ==> name[j] == hex[j - |sanitized| - 1];
  }

  /** Joining a name without a dot onto the upload folder gives a path
      without a dot. */
  lemma TempPathNoDot(name: string)
    requires Free(name, '.')
    ensures Free(TempPath(name), '.')
  {
    var path := TempPath(name);
    if !(|name| > 0 && name[0] == '/') {
      assert Free(UploadDir, '.');
      assert forall j :: |UploadDir| + 1 <= j < |path| ==> path[j] == name[j - |UploadDir| - 1];
    }
  }

  /** A sanitized name without any dot (secure_filename turns "Контакты.xlsx"
      into "xlsx": the Cyrillic letters and the leading dot go) gives a
      temporary path with no extension, which the library refuses: the import
      fails whatever the file holds. */
  lemma LostSuffixFails(sanitized: string, hex: string, content: Option<seq<Row>>)
    requires Free(sanitized, '.') && Free(hex, '.')
    ensures ImportOutcome(TempPath(TempName(sanitized, hex)), content) == Err(InvalidWorkbook)
  {
    TempNameNoDot(sanitized, hex);
    var path := TempPath(TempName(sanitized, hex));
    TempPathNoDot(TempName(sanitized, hex));
    SplitExtNoDot(path);
    WorkbookPathByExtension(path);
  }

  /** The body of import_contacts after the gate: the upload is saved under
      `path`, imported, and the temporary file is removed whether the import
      succeeded or raised; any error becomes a message. */
  method SaveAndImport(db: Database, uploads: UploadFolder, path: string, content: Option<seq<Row>>)
    returns (resp: Response)
    requires db.Valid() && db.pending == []
    modifies db, uploads
    ensures db.Valid() && db.pending == []
    ensures resp.Redirect? && resp.to == Dashboard
    ensures path !in uploads.files && uploads.files == old(uploads.files) - {path}
    ensures match ImportOutcome(path, content)
      case Ok(es) =>
        && resp.flash == Some(Imported(|es|))
        && db.contacts == Appended(old(db.contacts), old(db.nextId), es)
        && db.commits == old(db.commits) + 1
      case Err(e) =>
        && resp.flash == Some(ImportFailed(e))
        && db.contacts == old(db.contacts) && db.commits == old(db.commits)
  {
    uploads.files := uploads.files[path := content];
    assert path in uploads.files && uploads.files[path] == content;
    ghost var outcome := ImportOutcome(path, content);
    var r := ImportFromExcel(db, uploads, path);
    assert r.Ok? ==> outcome.Ok? && r.value == |outcome.value|;
    assert r.Err? ==> outcome.Err? && r.error == outcome.error;
    if r.Ok? {
      assert [] + outcome.value == outcome.value;
      resp := Redirect(Dashboard, Some(Imported(r.value)));
    } else {
      resp := Redirect(Dashboard, Some(ImportFailed(r.error)));
    }
    // finally: remove the temporary file if it is there
    if path in uploads.files {
      uploads.files := uploads.files - {path};
    }
    // request teardown: whatever the failed import added and did not commit is dropped
    db.Discard();
  }

  /** import_contacts: the gate, then the save and import under the temporary
      path. The handler always redirects to the dashboard. `secureFilename`
      and `hex` stand for the filename sanitizer and the random UUID. */
  method ImportContacts(db: Database, uploads: UploadFolder, file: Option<Upload>,
                        secureFilename: string -> string, hex: string)
    returns (resp: Response)
    requires db.Valid() && db.pending == []
    modifies db, uploads
    ensures db.Valid() && db.pending == []
    ensures resp.Redirect? && resp.to == Dashboard
    ensures UploadGate(file) != Proceed ==>
      && resp.flash == Some(if UploadGate(file) == NoFileChosen then NoFileSelected else WrongFormat)
      && db.contacts == old(db.contacts) && db.commits == old(db.commits)
      && uploads.files == old(uploads.files)
    ensures UploadGate(file) == Proceed ==>
      var path := TempPath(TempName(secureFilename(file.value.filename), hex));
      && path !in uploads.files
      && uploads.files == old(uploads.files) - {path}
      && match ImportOutcome(path, file.value.content)
         case Ok(es) =>
           && resp.flash == Some(Imported(|es|))
           && db.contacts == Appended(old(db.contacts), old(db.nextId), es)
           && db.commits == old(db.commits) + 1
         case Err(e) =>
           && resp.flash == Some(ImportFailed(e))
           && db.contacts == old(db.contacts) && db.commits == old(db.commits)
  {
    var gate := UploadGate(file);
    if gate == NoFileChosen {
      return Redirect(Dashboard, Some(NoFileSelected));
    }
    if gate == WrongExtension {
      return Redirect(Dashboard, Some(WrongFormat));
    }
    var path := TempPath(TempName(secureFilename(file.value.filename), hex));
    resp := SaveAndImport(db, uploads, path, file.value.content);
  }
}
