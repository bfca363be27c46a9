/**
 * The registration serializer: per-field checks of the submitted form,
 * the password confirmation, creation through the user manager, and the
 * response body, which never carries a password.
 */
module Registration {
  import opened Wrappers
  import Text
  import Users

  /** A submitted form: field name to value. */
  type Payload = map<string, string>

  const EmailField := "email"
  const FirstNameField := "first_name"
  const LastNameField := "last_name"
  const PasswordField := "password"
  const ConfirmField := "confirm_password"

  /** The fields the serializer declares; any other key of the form is ignored. */
  const DeclaredFields: set<string> := {EmailField, FirstNameField, LastNameField, PasswordField, ConfirmField}

  const PasswordMinLength := 8
  const PasswordMaxLength := 255
  const NameMinLength := 3

  /** The errors `validate` can raise on its own. */
  datatype ValidateError =
    | PasswordsDiffer       // ValidationError keyed by confirm_password
    | ConfirmationMissing   // the KeyError of deleting an absent confirm_password

  /** Why a registration is refused. */
  datatype RegistrationError =
    | Invalid(fields: set<string>)        // a 400 response keyed by the offending fields
    | CreateFailed(error: Users.UserError)

  /** A required, non-blank (stripped) text field whose length lies in `lo..hi`. */
  predicate TextOk(data: Payload, key: string, lo: nat, hi: nat) {
    key in data && data[key] != "" && lo <= |data[key]| <= hi
  }

  /**
   * Whether one declared field passes its field-level checks. The e-mail
   * format check and the password rules of the project's custom
   * validators are parameters; the uniqueness check compares the value
   * as submitted with the stored addresses.
   */
  predicate FieldOk(users: seq<Users.User>, data: Payload, field: string,
                    emailFormat: string -> bool, passwordRules: string -> bool) {
    if field == EmailField then
      TextOk(data, EmailField, 1, Users.EmailMaxLength) && emailFormat(data[EmailField]) &&
      !Users.EmailTaken(users, data[EmailField])
    else if field == FirstNameField || field == LastNameField then
      TextOk(data, field, NameMinLength, Users.NameMaxLength)
    else if field == PasswordField then
      TextOk(data, PasswordField, PasswordMinLength, PasswordMaxLength) && passwordRules(data[PasswordField])
    else
      TextOk(data, field, 1, PasswordMaxLength)
  }

  /** The declared fields that fail their checks. */
  function FieldErrors(users: seq<Users.User>, data: Payload,
                       emailFormat: string -> bool, passwordRules: string -> bool): (r: set<string>)
    ensures r <= DeclaredFields
    ensures forall f :: f in DeclaredFields ==> (f in r <==> !FieldOk(users, data, f, emailFormat, passwordRules))
    ensures EmailField in r <==>
      !(EmailField in data && 1 <= |data[EmailField]| <= 255 && emailFormat(data[EmailField]) &&
        !Users.EmailTaken(users, data[EmailField]))
    ensures FirstNameField in r <==> !(FirstNameField in data && 3 <= |data[FirstNameField]| <= 32)
    ensures LastNameField in r <==> !(LastNameField in data && 3 <= |data[LastNameField]| <= 32)
    ensures PasswordField in r <==>
      !(PasswordField in data && 8 <= |data[PasswordField]| <= 255 && passwordRules(data[PasswordField]))
    ensures ConfirmField in r <==> !(ConfirmField in data && 1 <= |data[ConfirmField]| <= 255)
  {
    assert EmailField in DeclaredFields && FirstNameField in DeclaredFields && LastNameField in DeclaredFields;
    assert PasswordField in DeclaredFields && ConfirmField in DeclaredFields;
    set f | f in DeclaredFields && !FieldOk(users, data, f, emailFormat, passwordRules)
  }

  /**
   * `UserSerializer.validate`: refuse differing passwords (absent values
   * compare equal), then drop `confirm_password`.
   */
  function Validate(data: Payload): (r: Result<Payload, ValidateError>)
    ensures r == Err(PasswordsDiffer) <==>
      (PasswordField in data) != (ConfirmField in data) ||
      (PasswordField in data && ConfirmField in data && data[PasswordField] != data[ConfirmField])
    ensures r == Err(ConfirmationMissing) <==> PasswordField !in data && ConfirmField !in data
    ensures r.Ok? ==>
      && r.value.Keys == data.Keys - {ConfirmField}
      && forall k :: k in r.value ==> r.value[k] == data[k]
  {
    var password := if PasswordField in data then Some(data[PasswordField]) else None;
    var confirm := if ConfirmField in data then Some(data[ConfirmField]) else None;
    if password != confirm then Err(PasswordsDiffer)
    else if ConfirmField !in data then Err(ConfirmationMissing)
    else Ok(data - {ConfirmField})
  }

  /**
   * The form as the serializer's fields read it: only the declared
   * fields, each value stripped of surrounding whitespace, as every text
   * field of the REST framework does by default.
   */
  function Declared(payload: Payload): (r: Payload)
    ensures r.Keys == payload.Keys * DeclaredFields
    ensures forall k :: k in r ==> r[k] == Text.Trim(payload[k])
  {
    map k | k in payload && k in DeclaredFields :: Text.Trim(payload[k])
  }

  /** The serialised user: the readable declared fields of the stored row. */
  function Response(u: Users.User): (r: Payload)
    ensures PasswordField !in r && ConfirmField !in r
    ensures r.Keys == {EmailField, FirstNameField, LastNameField}
    ensures r[EmailField] == u.email && r[FirstNameField] == u.firstName && r[LastNameField] == u.lastName
  {
    map[EmailField := u.email, FirstNameField := u.firstName, LastNameField := u.lastName]
  }

  /**
   * `is_valid` followed by `save` on the form as the fields read it:
   * `validate`, then `create` through `create_user` with the names as
   * extra fields, and the response body.
   */
  function Submit(users: seq<Users.User>, data: Payload,
                  emailFormat: string -> bool, passwordRules: string -> bool)
    : (r: Result<(seq<Users.User>, nat, Payload), RegistrationError>)
    ensures r.Err? && r.error.Invalid? ==> r.error.fields != {}
    ensures FieldErrors(users, data, emailFormat, passwordRules) != {} ==>
      r == Err(Invalid(FieldErrors(users, data, emailFormat, passwordRules)))
    ensures FieldErrors(users, data, emailFormat, passwordRules) == {} ==>
      && EmailField in data && PasswordField in data && ConfirmField in data
      && (data[PasswordField] != data[ConfirmField] ==> r == Err(Invalid({ConfirmField})))
      && (data[PasswordField] == data[ConfirmField] ==>
            && (r.Ok? <==>
                  !Users.EmailTaken(users, Users.NormalizeEmail(data[EmailField])) && !Users.UsernameTaken(users, ""))
            && (r.Err? ==> r == Err(CreateFailed(Users.UniqueViolation))))
    ensures r.Ok? ==>
      && (forall f :: f in DeclaredFields ==> FieldOk(users, data, f, emailFormat, passwordRules))
      && EmailField in data && FirstNameField in data && LastNameField in data
      && PasswordField in data && ConfirmField in data
      && data[PasswordField] == data[ConfirmField]
    ensures r.Ok? ==>
      var (users', id, body) := r.value;
      && id == |users| && |users'| == |users| + 1 && users'[..|users|] == users
      && users'[id].email == Users.NormalizeEmail(data[EmailField])
      && users'[id].firstName == data[FirstNameField]
      && users'[id].lastName == data[LastNameField]
      && users'[id].password == data[PasswordField]
      && users'[id].username == ""
      && body == Response(users'[id])
    ensures r.Err? && r.error.CreateFailed? ==> r.error.error == Users.UniqueViolation
    ensures r.Ok? && Users.Valid(users) ==> Users.Valid(r.value.0)
  {
    var errors := FieldErrors(users, data, emailFormat, passwordRules);
    if errors != {} then Err(Invalid(errors))
    else
      assert FieldOk(users, data, EmailField, emailFormat, passwordRules);
      assert FieldOk(users, data, FirstNameField, emailFormat, passwordRules);
      assert FieldOk(users, data, LastNameField, emailFormat, passwordRules);
      assert FieldOk(users, data, PasswordField, emailFormat, passwordRules);
      assert FieldOk(users, data, ConfirmField, emailFormat, passwordRules);
      match Validate(data)
      case Err(_) => Err(Invalid({ConfirmField}))
      case Ok(v) =>
        var extra := Users.NoExtras.(firstName := Some(v[FirstNameField]), lastName := Some(v[LastNameField]));
        match Users.CreateUser(users, v[EmailField], v[PasswordField], extra)
        case Err(e) => Err(CreateFailed(e))
        case Ok((users', id)) => Ok((users', id, Response(users'[id])))
  }

  /**
   * Registration end to end: the submitted form is restricted to the
   * declared fields and stripped, then checked and saved. A form that
   * passes its field checks is refused under `confirm_password` exactly
   * when the stripped passwords differ, and otherwise registers exactly
   * when neither its normalised address nor the empty username is stored
   * yet; the stored values are the stripped ones.
   */
  function Register(users: seq<Users.User>, payload: Payload,
                    emailFormat: string -> bool, passwordRules: string -> bool)
    : (r: Result<(seq<Users.User>, nat, Payload), RegistrationError>)
    ensures r.Err? && r.error.Invalid? ==> r.error.fields != {}
    ensures FieldErrors(users, Declared(payload), emailFormat, passwordRules) != {} ==>
      r == Err(Invalid(FieldErrors(users, Declared(payload), emailFormat, passwordRules)))
    ensures FieldErrors(users, Declared(payload), emailFormat, passwordRules) == {} ==>
      && EmailField in payload && PasswordField in payload && ConfirmField in payload
      && (Text.Trim(payload[PasswordField]) != Text.Trim(payload[ConfirmField]) ==>
            r == Err(Invalid({ConfirmField})))
      && (Text.Trim(payload[PasswordField]) == Text.Trim(payload[ConfirmField]) ==>
            && (r.Ok? <==>
                  && !Users.EmailTaken(users, Users.NormalizeEmail(Text.Trim(payload[EmailField])))
                  && !Users.UsernameTaken(users, ""))
            && (r.Err? ==> r == Err(CreateFailed(Users.UniqueViolation))))
    ensures r.Ok? ==>
      && (forall f :: f in DeclaredFields ==> FieldOk(users, Declared(payload), f, emailFormat, passwordRules))
      && EmailField in payload && FirstNameField in payload && LastNameField in payload
      && PasswordField in payload && ConfirmField in payload
      && Text.Trim(payload[PasswordField]) == Text.Trim(payload[ConfirmField])
    ensures r.Ok? ==>
      var (users', id, body) := r.value;
      && id == |users| && |users'| == |users| + 1 && users'[..|users|] == users
      && users'[id].email == Users.NormalizeEmail(Text.Trim(payload[EmailField]))
      && users'[id].firstName == Text.Trim(payload[FirstNameField])
      && users'[id].lastName == Text.Trim(payload[LastNameField])
      && users'[id].password == Text.Trim(payload[PasswordField])
      && users'[id].username == ""
      && body == Response(users'[id])
    ensures r.Err? && r.error.CreateFailed? ==> r.error.error == Users.UniqueViolation
    ensures r.Ok? && Users.Valid(users) ==> Users.Valid(r.value.0)
  {
    var data := Declared(payload);
    assert forall k :: k in data ==> k in payload && data[k] == Text.Trim(payload[k]);
    Submit(users, data, emailFormat, passwordRules)
  }

  /**
   * A password shorter than eight characters is refused with an error on
   * the password field, and no user is created.
   */
  lemma ShortPasswordRejected(users: seq<Users.User>, payload: Payload,
                              emailFormat: string -> bool, passwordRules: string -> bool)
    requires PasswordField in payload && |payload[PasswordField]| < PasswordMinLength
    ensures var r := Register(users, payload, emailFormat, passwordRules);
      r.Err? && r.error.Invalid? && PasswordField in r.error.fields
  {
    assert |Text.Trim(payload[PasswordField])| <= |payload[PasswordField]|;
    assert !FieldOk(users, Declared(payload), PasswordField, emailFormat, passwordRules);
  }

  /**
   * Submitting the same form again once it has registered a user fails;
   * when the submitted address is already in normal form the field check
   * itself reports the e-mail as taken.
   */
  lemma SameFormTwiceFails(users: seq<Users.User>, payload: Payload,
                           emailFormat: string -> bool, passwordRules: string -> bool)
    requires Register(users, payload, emailFormat, passwordRules).Ok?
    ensures var (users', id, body) := Register(users, payload, emailFormat, passwordRules).value;
      var again := Register(users', payload, emailFormat, passwordRules);
      && again.Err?
      && (var e := Text.Trim(payload[EmailField]);
          Users.NormalizeEmail(e) == e ==> again.error.Invalid? && EmailField in again.error.fields)
  {
    var (users', id, body) := Register(users, payload, emailFormat, passwordRules).value;
    var e := Text.Trim(payload[EmailField]);
    assert users'[id].username == "";
    RefusedOnceUsernameTaken(users', payload, emailFormat, passwordRules);
    if Users.NormalizeEmail(e) == e {
      assert Users.EmailTaken(users', e);
      assert Declared(payload)[EmailField] == e;
      assert EmailField in DeclaredFields;
      assert EmailField in FieldErrors(users', Declared(payload), emailFormat, passwordRules);
    }
  }

  /**
   * The uniqueness check compares the address as submitted, while the
   * stored address has its domain lowered: a form whose address differs
   * from a stored one only in the domain's letter case passes every field
   * check and `validate`, and is refused by the unique e-mail column.
   */
  lemma DomainCaseVariantReachesDatabase(users: seq<Users.User>, payload: Payload, i: nat,
                                         emailFormat: string -> bool, passwordRules: string -> bool)
    requires i < |users|
    requires forall f :: f in DeclaredFields ==> FieldOk(users, Declared(payload), f, emailFormat, passwordRules)
    requires EmailField in payload && PasswordField in payload && ConfirmField in payload
    requires Text.Trim(payload[PasswordField]) == Text.Trim(payload[ConfirmField])
    requires Users.NormalizeEmail(Text.Trim(payload[EmailField])) == users[i].email
    ensures Register(users, payload, emailFormat, passwordRules) == Err(CreateFailed(Users.UniqueViolation))
  {
    assert FieldErrors(users, Declared(payload), emailFormat, passwordRules) == {};
    assert Users.EmailTaken(users, Users.NormalizeEmail(Text.Trim(payload[EmailField])));
  }

  /** Once the empty username is stored, no form registers. */
  lemma RefusedOnceUsernameTaken(users: seq<Users.User>, payload: Payload,
                                 emailFormat: string -> bool, passwordRules: string -> bool)
    requires Users.UsernameTaken(users, "")
    ensures Register(users, payload, emailFormat, passwordRules).Err?
  {
  }

  /**
   * The form has no username field, so every user it creates stores the
   * empty username; once one has registered, the unique username column
   * refuses every further registration, whatever its address.
   */
  lemma OnlyOneFormRegistration(users: seq<Users.User>, payload: Payload, payload2: Payload,
                                emailFormat: string -> bool, passwordRules: string -> bool)
    requires Register(users, payload, emailFormat, passwordRules).Ok?
    ensures var users' := Register(users, payload, emailFormat, passwordRules).value.0;
      Register(users', payload2, emailFormat, passwordRules).Err?
  {
    var (users', id, body) := Register(users, payload, emailFormat, passwordRules).value;
    assert users'[id].username == "";
    RefusedOnceUsernameTaken(users', payload2, emailFormat, passwordRules);
  }
}
