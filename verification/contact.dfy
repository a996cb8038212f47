/** The contact form's state logic (src/pages/Contact.jsx): `handleChange`,
    `validate`, and the reset that follows a successful submit.

    JavaScript's `String.prototype.trim` and the regular-expression class
    `\s` both use the WhiteSpace and LineTerminator characters of ECMA-262
    (sections 12.2 and 12.3); `IsSpace` is that set. */
module ContactForm {

  /** The four inputs of the form, named as the form names them. */
  datatype Field = Name | Email | Subject | Message

  datatype Form = Form(name: string, email: string, subject: string, message: string)

  /** The error texts per field. `handleChange` overwrites an error with the
      empty string rather than removing the key, so a field "has an error"
      when its key is present with a non-empty text. */
  type Errors = map<Field, string>

  /** The form state the page keeps: the inputs and the errors shown. */
  datatype FormState = FormState(data: Form, errors: Errors)

  /** The value the form starts with and is reset to. */
  const EmptyForm: Form := Form("", "", "", "")

  function Get(f: Form, field: Field): string
  {
    match field
    case Name => f.name
    case Email => f.email
    case Subject => f.subject
    case Message => f.message
  }

  function Set(f: Form, field: Field, value: string): Form
  {
    match field
    case Name => f.(name := value)
    case Email => f.(email := value)
    case Subject => f.(subject := value)
    case Message => f.(message := value)
  }

  predicate HasError(errors: Errors, field: Field)
  {
    field in errors && errors[field] != ""
  }

  // ---------------------------------------------------------------------
  // Whitespace and trimming
  // ---------------------------------------------------------------------

  /** ECMA-262 WhiteSpace and LineTerminator code points. */
  predicate IsSpace(c: char)
  {
    || c == '\t' || c == '\n' || c == '\U{000B}' || c == '\U{000C}' || c == '\r'
    || c == ' ' || c == '\U{00A0}' || c == '\U{1680}'
    || ('\U{2000}' <= c <= '\U{200A}')
    || c == '\U{2028}' || c == '\U{2029}' || c == '\U{202F}' || c == '\U{205F}'
    || c == '\U{3000}' || c == '\U{FEFF}'
  }

  predicate AllSpace(s: string)
  {
    forall i :: 0 <= i < |s| ==> IsSpace(s[i])
  }

  /** `s` without its leading whitespace. */
  function TrimStart(s: string): (r: string)
    ensures |r| <= |s| && r == s[|s| - |r|..]
    ensures forall i :: 0 <= i < |s| - |r| ==> IsSpace(s[i])
    ensures r == [] || !IsSpace(r[0])
  {
    if |s| > 0 && IsSpace(s[0]) then
      var r := TrimStart(s[1..]);
      assert forall i :: 0 < i < |s| - |r| ==> s[i] == s[1..][i - 1];
      r
    else s
  }

  /** `s` without its trailing whitespace. */
  function TrimEnd(s: string): (r: string)
    ensures |r| <= |s| && r == s[..|r|]
    ensures forall i :: |r| <= i < |s| ==> IsSpace(s[i])
    ensures r == [] || !IsSpace(r[|r| - 1])
  {
    if |s| > 0 && IsSpace(s[|s| - 1]) then
      var r := TrimEnd(s[..|s| - 1]);
      assert forall i :: |r| <= i < |s| - 1 ==> s[i] == s[..|s| - 1][i];
      r
    else s
  }

  /** `String.prototype.trim`. The result is empty exactly when the input is
      all whitespace. */
  function Trim(s: string): (r: string)
    ensures r == [] <==> AllSpace(s)
  {
    TrimEnd(TrimStart(s))
  }

  // ---------------------------------------------------------------------
  // The email pattern /^[^\s@]+@[^\s@]+\.[^\s@]+$/
  // ---------------------------------------------------------------------

  /** A character of the class `[^\s@]`. */
  predicate EmailChar(c: char)
  {
    c != '@' && !IsSpace(c)
  }

  /** A match of `[^\s@]+`. */
  predicate Segment(t: string)
  {
    |t| > 0 && forall i :: 0 <= i < |t| ==> EmailChar(t[i])
  }

  /** The regular expression, read as a pattern over the whole string: it
      splits into a segment, `@`, a segment, `.`, and a segment, where the
      segments may themselves contain dots. */
  predicate MatchesEmailPattern(s: string)
  {
    exists a, d :: 0 < a && a + 1 < d && d + 1 < |s|
      && s[a] == '@' && s[d] == '.'
      && Segment(s[..a]) && Segment(s[a + 1..d]) && Segment(s[d + 1..])
  }

  /** The shape the pattern accepts, in plain terms: no whitespace, exactly
      one `@`, a non-empty part before it, and a dot in the part after it
      that is neither that part's first nor its last character. */
  predicate WellFormedEmail(s: string)
  {
    && (forall i :: 0 <= i < |s| ==> !IsSpace(s[i]))
    && exists a :: (0 < a < |s| && s[a] == '@'
      && (forall i :: 0 <= i < |s| && s[i] == '@' ==> i == a)
      && exists d :: a + 1 < d < |s| - 1 && s[d] == '.')
  }

  /** Every match of the pattern is well formed. */
  lemma PatternImpliesWellFormed(s: string, a: int, d: int)
    requires 0 < a && a + 1 < d && d + 1 < |s|
    requires s[a] == '@' && s[d] == '.'
    requires Segment(s[..a]) && Segment(s[a + 1..d]) && Segment(s[d + 1..])
    ensures WellFormedEmail(s)
  {
    forall i | 0 <= i < |s| && i != a
      ensures EmailChar(s[i])
    {
      if i < a {
        assert s[i] == s[..a][i];
      } else if i < d {
        assert s[i] == s[a + 1..d][i - a - 1];
      } else if i > d {
        assert s[i] == s[d + 1..][i - d - 1];
      }
    }
    assert forall i :: 0 <= i < |s| && s[i] == '@' ==> i == a;
    assert forall i :: 0 <= i < |s| ==> !IsSpace(s[i]);
  }

  /** Every well-formed address matches the pattern, split at its `@` and at
      the inner dot of its domain. */
  lemma WellFormedImpliesPattern(s: string, a: int, d: int)
    requires forall i :: 0 <= i < |s| ==> !IsSpace(s[i])
    requires 0 < a < |s| && s[a] == '@'
    requires forall i :: 0 <= i < |s| && s[i] == '@' ==> i == a
    requires a + 1 < d < |s| - 1 && s[d] == '.'
    ensures MatchesEmailPattern(s)
  {
    var left, mid, right := s[..a], s[a + 1..d], s[d + 1..];
    assert forall i :: 0 <= i < |left| ==> left[i] == s[i];
    assert forall i :: 0 <= i < |mid| ==> mid[i] == s[a + 1 + i];
    assert forall i :: 0 <= i < |right| ==> right[i] == s[d + 1 + i];
    assert Segment(left) && Segment(mid) && Segment(right);
  }

  /** The regular expression accepts exactly the well-formed addresses. */
  lemma EmailPatternIff(s: string)
    ensures MatchesEmailPattern(s) <==> WellFormedEmail(s)
  {
    if MatchesEmailPattern(s) {
      var a, d :| 0 < a && a + 1 < d && d + 1 < |s|
        && s[a] == '@' && s[d] == '.'
        && Segment(s[..a]) && Segment(s[a + 1..d]) && Segment(s[d + 1..]);
      PatternImpliesWellFormed(s, a, d);
    }
    if WellFormedEmail(s) {
      var a :| 0 < a < |s| && s[a] == '@'
        && (forall i :: 0 <= i < |s| && s[i] == '@' ==> i == a)
        && exists d :: a + 1 < d < |s| - 1 && s[d] == '.';
      var d :| a + 1 < d < |s| - 1 && s[d] == '.';
      WellFormedImpliesPattern(s, a, d);
    }
  }

  // ---------------------------------------------------------------------
  // validate
  // ---------------------------------------------------------------------

  const NameRequired := "Name is required"
  const EmailRequired := "Email is required"
  const EmailInvalid := "Invalid email format"
  const SubjectRequired := "Subject is required"
  const MessageRequired := "Message is required"

  /** What `validate` produces: its boolean result and the error map it
      stores. */
  datatype Validation = Validation(valid: bool, errors: Errors)

  /** The error `validate` records for one field, or "" for none. The
      required-field checks trim the value; the email pattern is applied to
      the untrimmed value. */
  function FieldError(f: Form, field: Field): (e: string)
    ensures field == Name ==> e == (if AllSpace(f.name) then NameRequired else "")
    ensures field == Subject ==> e == (if AllSpace(f.subject) then SubjectRequired else "")
    ensures field == Message ==> e == (if AllSpace(f.message) then MessageRequired else "")
    ensures field == Email ==>
      e == (if AllSpace(f.email) then EmailRequired
            else if !WellFormedEmail(f.email) then EmailInvalid
            else "")
  {
    EmailPatternIff(f.email);
    match field
    case Name => if Trim(f.name) == [] then NameRequired else ""
    case Email =>
      if Trim(f.email) == [] then EmailRequired
      else if !MatchesEmailPattern(f.email) then EmailInvalid
      else ""
    case Subject => if Trim(f.subject) == [] then SubjectRequired else ""
    case Message => if Trim(f.message) == [] then MessageRequired else ""
  }

  /** The outcome of each of `validate`'s checks on one form. */
  datatype Checks = Checks(nameBlank: bool, emailBlank: bool, emailMalformed: bool,
                           subjectBlank: bool, messageBlank: bool)

  /** Runs the checks: the required-field tests trim the value, and the
      email pattern is applied to the untrimmed value. */
  function RunChecks(f: Form): (c: Checks)
    ensures c.nameBlank <==> AllSpace(f.name)
    ensures c.emailBlank <==> AllSpace(f.email)
    ensures c.emailMalformed <==> !WellFormedEmail(f.email)
    ensures c.subjectBlank <==> AllSpace(f.subject)
    ensures c.messageBlank <==> AllSpace(f.message)
  {
    EmailPatternIff(f.email);
    Checks(Trim(f.name) == [], Trim(f.email) == [], !MatchesEmailPattern(f.email),
           Trim(f.subject) == [], Trim(f.message) == [])
  }

  /** The error map built from the checks, one `if` per field in
      `validate`'s order; a malformed email is reported only when it is not
      blank. */
  function ErrorsOf(c: Checks): (errors: Errors)
    ensures Name in errors <==> c.nameBlank
    ensures Email in errors <==> c.emailBlank || c.emailMalformed
    ensures Subject in errors <==> c.subjectBlank
    ensures Message in errors <==> c.messageBlank
    ensures Name in errors ==> errors[Name] == NameRequired
    ensures Email in errors ==> errors[Email] == (if c.emailBlank then EmailRequired else EmailInvalid)
    ensures Subject in errors ==> errors[Subject] == SubjectRequired
    ensures Message in errors ==> errors[Message] == MessageRequired
    ensures |errors.Keys| == 0 <==>
      !c.nameBlank && !c.emailBlank && !c.emailMalformed && !c.subjectBlank && !c.messageBlank
  {
    var afterName: Errors := if c.nameBlank then map[Name := NameRequired] else map[];
    var afterEmail :=
      if c.emailBlank then afterName[Email := EmailRequired]
      else if c.emailMalformed then afterName[Email := EmailInvalid]
      else afterName;
    var afterSubject :=
      if c.subjectBlank then afterEmail[Subject := SubjectRequired] else afterEmail;
    if c.messageBlank then afterSubject[Message := MessageRequired] else afterSubject
  }

  /** `validate`: the error map holds an entry exactly for each failing
      check, and the result is true when the map has no keys, that is when
      every check passes. */
  function Validate(f: Form): (v: Validation)
    ensures Name in v.errors <==> AllSpace(f.name)
    ensures Subject in v.errors <==> AllSpace(f.subject)
    ensures Message in v.errors <==> AllSpace(f.message)
    ensures Email in v.errors <==> AllSpace(f.email) || !WellFormedEmail(f.email)
    ensures Name in v.errors ==> v.errors[Name] == NameRequired
    ensures Subject in v.errors ==> v.errors[Subject] == SubjectRequired
    ensures Message in v.errors ==> v.errors[Message] == MessageRequired
    ensures Email in v.errors ==>
      v.errors[Email] == (if AllSpace(f.email) then EmailRequired else EmailInvalid)
    ensures v.valid <==> v.errors == map[]
    ensures v.valid <==>
      && !AllSpace(f.name) && !AllSpace(f.subject) && !AllSpace(f.message)
      && WellFormedEmail(f.email)
  {
    var errors := ErrorsOf(RunChecks(f));
    Validation(|errors.Keys| == 0, errors)
  }

  /** The entries `validate` stores are exactly the per-field errors: a
      required message for each blank field, and for the email either the
      required or the format message, never both. */
  lemma ValidateReportsEachField(f: Form)
    ensures forall field :: field in Validate(f).errors <==> FieldError(f, field) != ""
    ensures forall field :: field in Validate(f).errors ==> Validate(f).errors[field] == FieldError(f, field)
  {
    var v := Validate(f);
    forall field
      ensures field in v.errors <==> FieldError(f, field) != ""
      ensures field in v.errors ==> v.errors[field] == FieldError(f, field)
    {
      match field
      case Name =>
      case Email =>
      case Subject =>
      case Message =>
    }
  }

  /** A form of blank fields, such as the one a successful submit resets
      to, fails validation with every field reported, the email as missing
      rather than malformed. */
  lemma BlankFormRejected(f: Form)
    requires AllSpace(f.name) && AllSpace(f.email) && AllSpace(f.subject) && AllSpace(f.message)
    ensures !Validate(f).valid
    ensures forall field :: HasError(Validate(f).errors, field)
    ensures Validate(f).errors[Email] == EmailRequired
  {
    var v := Validate(f);
    forall field
      ensures HasError(v.errors, field)
    {
      match field
      case Name =>
      case Email =>
      case Subject =>
      case Message =>
    }
  }

  /** The pattern is applied to the untrimmed value, so an address carrying
      any whitespace, such as surrounding padding, is reported malformed. */
  lemma PaddedEmailInvalid(f: Form, i: nat)
    requires i < |f.email| && IsSpace(f.email[i])
    requires !AllSpace(f.email)
    ensures Validate(f).errors[Email] == EmailInvalid
  {
  }

  // ---------------------------------------------------------------------
  // handleChange and submit
  // ---------------------------------------------------------------------

  /** `handleChange`: store the new value of one field, and blank that
      field's error if it had one. */
  function HandleChange(st: FormState, field: Field, value: string): (r: FormState)
    ensures Get(r.data, field) == value
    ensures forall other :: other != field ==> Get(r.data, other) == Get(st.data, other)
    ensures !HasError(r.errors, field)
    ensures r.errors.Keys == st.errors.Keys
    ensures forall other :: other != field && other in st.errors ==> r.errors[other] == st.errors[other]
    ensures !HasError(st.errors, field) ==> r.errors == st.errors
  {
    var data := Set(st.data, field, value);
    if HasError(st.errors, field) then FormState(data, st.errors[field := ""])
    else FormState(data, st.errors)
  }

  /** `handleSubmit`, after its delay has run out: a valid form is cleared
      together with its errors; an invalid one is kept and the errors from
      `validate` are shown. */
  function Submit(st: FormState): (r: FormState)
    ensures Validate(st.data).valid ==> r == FormState(EmptyForm, map[])
    ensures !Validate(st.data).valid ==>
      r.data == st.data && r.errors == Validate(st.data).errors && r.errors != map[]
  {
    var v := Validate(st.data);
    if v.valid then FormState(EmptyForm, v.errors) else FormState(st.data, v.errors)
  }
}
