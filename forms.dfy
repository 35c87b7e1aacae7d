/** The contact and login forms, as validity predicates over the submitted
    field data. Each WTForms validator becomes a predicate; a validator list is
    their conjunction, with Optional() cutting the chain short on blank data. */
module Forms {
  import opened Outcomes
  import opened Models

  /** Python's str.isspace: the characters str.strip() removes. */
  predicate IsSpace(c: char) {
    || c == ' ' || ('\t' <= c <= '\r') || ('\U{001C}' <= c <= '\U{001F}')
    || c == '\U{0085}' || c == '\U{00A0}' || c == '\U{1680}'
    || ('\U{2000}' <= c <= '\U{200A}') || c == '\U{2028}' || c == '\U{2029}'
    || c == '\U{202F}' || c == '\U{205F}' || c == '\U{3000}'
  }

  /** Field data that is missing, empty or whitespace only. */
  predicate Blank(d: Option<string>) {
    d.None? || forall i :: 0 <= i < |d.value| ==> IsSpace(d.value[i])
  }

  /** DataRequired(): the data is present and not whitespace only. */
  predicate DataRequired(d: Option<string>) {
    !Blank(d)
  }

  /** Length(max=n): missing data counts as length 0. */
  predicate Length(d: Option<string>, max: nat) {
    d.None? || |d.value| <= max
  }

  /** The data of the five contact fields; `None` when the field carried none. */
  datatype ContactForm = ContactForm(
    fullName: Option<string>,
    workPhone: Option<string>,
    mobilePhone: Option<string>,
    email: Option<string>,
    notes: Option<string>)

  /** ContactForm.validate(). The email syntax check (Email()) is the
      parameter `isEmail`. Optional() accepts blank data and skips the
      validators after it; notes has nothing after it. */
  predicate ContactFormValid(f: ContactForm, isEmail: string -> bool) {
    && DataRequired(f.fullName) && Length(f.fullName, FullNameWidth)
    && (Blank(f.workPhone) || Length(f.workPhone, PhoneWidth))
    && (Blank(f.mobilePhone) || Length(f.mobilePhone, PhoneWidth))
    && (Blank(f.email) || (isEmail(f.email.value) && Length(f.email, EmailWidth)))
  }

  /** The record the create and edit handlers build from a validated form. */
  function ToEntry(f: ContactForm): Entry
    requires DataRequired(f.fullName)
  {
    Entry(f.fullName.value, f.workPhone, f.mobilePhone, f.email, f.notes)
  }

  /** The form that submits the fields of `e`. */
  function FormOf(e: Entry): ContactForm {
    ContactForm(Some(e.fullName), e.workPhone, e.mobilePhone, e.email, e.notes)
  }

  /** Optional data that Optional() lets through without its Length check
      although it is too long for its column. */
  predicate OverlongBlank(d: Option<string>, width: nat) {
    Blank(d) && !Length(d, width)
  }

  /** An accepted contact form fits the Contact columns, unless one of its
      optional fields is an over-long run of whitespace. */
  lemma AcceptedFormFits(f: ContactForm, isEmail: string -> bool)
    requires ContactFormValid(f, isEmail)
    requires !OverlongBlank(f.workPhone, PhoneWidth) && !OverlongBlank(f.mobilePhone, PhoneWidth)
    requires !OverlongBlank(f.email, EmailWidth)
    ensures f.fullName.Some? && f.fullName.value != ""
    ensures FitsColumns(ToEntry(f))
  {
  }

  /** The form bounds are the column widths: every entry that fits its columns,
      has a non-blank name and a well-formed (or blank) email is accepted. */
  lemma FittingEntryAccepted(e: Entry, isEmail: string -> bool)
    requires FitsColumns(e) && DataRequired(Some(e.fullName))
    requires Blank(e.email) || isEmail(e.email.value)
    ensures ContactFormValid(FormOf(e), isEmail)
    ensures ToEntry(FormOf(e)) == e
  {
  }

  /** Each bound is tight: one character over a width, on non-blank data, is
      rejected. */
  lemma BoundsAreTight(f: ContactForm, isEmail: string -> bool)
    ensures !Blank(f.fullName) && |f.fullName.value| == FullNameWidth + 1 ==> !ContactFormValid(f, isEmail)
    ensures !Blank(f.workPhone) && |f.workPhone.value| == PhoneWidth + 1 ==> !ContactFormValid(f, isEmail)
    ensures !Blank(f.mobilePhone) && |f.mobilePhone.value| == PhoneWidth + 1 ==> !ContactFormValid(f, isEmail)
    ensures !Blank(f.email) && |f.email.value| == EmailWidth + 1 ==> !ContactFormValid(f, isEmail)
  {
  }

  /** A form whose work phone is 21 spaces passes validation (Optional() stops
      the chain before Length(max=20)) yet does not fit the column. */
  lemma WhitespacePhoneOverflows(isEmail: string -> bool)
    ensures var spaces := seq(PhoneWidth + 1, _ => ' ');
            var f := ContactForm(Some("A"), Some(spaces), None, None, None);
            ContactFormValid(f, isEmail) && !FitsColumns(ToEntry(f))
  {
    var spaces := seq(PhoneWidth + 1, _ => ' ');
    assert Blank(Some(spaces));
    assert !Blank(Some("A")) by {
      assert !IsSpace("A"[0]);
    }
  }

  /** The data of the login form. */
  datatype LoginForm = LoginForm(username: Option<string>, password: Option<string>)

  /** LoginForm.validate(): both fields are required. */
  predicate LoginFormValid(f: LoginForm) {
    DataRequired(f.username) && DataRequired(f.password)
  }

  /** A login form with an empty or missing field is never accepted. */
  lemma LoginNeedsBoth(f: LoginForm)
    ensures LoginFormValid(f) ==> f.username.Some? && f.username.value != ""
    ensures LoginFormValid(f) ==> f.password.Some? && f.password.value != ""
  {
  }
}
