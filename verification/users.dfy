/**
 * The custom user model and its manager: e-mail as the login name,
 * normalisation of the domain part, the unique e-mail and username
 * columns, superuser flag defaults and the competence-level labels.
 */
module Users {
  import opened Wrappers
  import opened Text
  import Choices

  const EmailMaxLength := 255
  const UsernameMaxLength := 38
  const NameMaxLength := 32
  const DefaultCompetence := 0

  const CompetenceChoices: Choices.Choices := [
    (0, "Not chosen"),
    (1, "Novice"),
    (2, "Intermediate"),
    (3, "Proficient"),
    (4, "Advanced"),
    (5, "Expert")
  ]

  /** A row of the user table. The password is an opaque value; hashing is not modelled. */
  datatype User = User(
    email: string,
    username: string,
    firstName: string,
    lastName: string,
    password: string,
    isActive: bool,
    isStaff: bool,
    isSuperuser: bool,
    competence: int)

  /** The keyword arguments the manager passes through to the model constructor. */
  datatype ExtraFields = ExtraFields(
    username: Option<string>,
    firstName: Option<string>,
    lastName: Option<string>,
    isActive: Option<bool>,
    isStaff: Option<bool>,
    isSuperuser: Option<bool>,
    competence: Option<int>)

  const NoExtras := ExtraFields(None, None, None, None, None, None, None)

  datatype UserError =
    | EmailNotSet      // ValueError('The Email must be set')
    | NotStaff         // ValueError('Superuser must have is_staff=True.')
    | NotSuperuser     // ValueError('Superuser must have is_superuser=True.')
    | UniqueViolation  // IntegrityError from the unique e-mail or username column

  predicate EmailTaken(users: seq<User>, email: string) {
    exists i :: 0 <= i < |users| && users[i].email == email
  }

  predicate UsernameTaken(users: seq<User>, username: string) {
    exists i :: 0 <= i < |users| && users[i].username == username
  }

  /** The database constraints of the user table: e-mail and username are unique. */
  predicate Valid(users: seq<User>) {
    && (forall i, j :: 0 <= i < |users| && 0 <= j < |users| && users[i].email == users[j].email ==> i == j)
    && (forall i, j :: 0 <= i < |users| && 0 <= j < |users| && users[i].username == users[j].username ==> i == j)
  }

  /**
   * `BaseUserManager.normalize_email`: split at the last '@', keep the
   * local part as given and lower-case the domain; an address without
   * '@' is kept unchanged.
   */
  function NormalizeEmail(email: string): (r: string)
    ensures |r| == |email|
    ensures var k := LastIndexOf(email, '@');
      && (k < 0 ==> r == email)
      && (k >= 0 ==> r[..k + 1] == email[..k + 1])
      && (k >= 0 ==> forall i :: k < i < |r| ==> !IsAsciiUpper(r[i]) && r[i] == LowerChar(email[i]))
  {
    var k := LastIndexOf(email, '@');
    if k < 0 then email else email[..k + 1] + Lower(email[k + 1..])
  }

  /**
   * The row the model constructor builds: a supplied keyword wins, and an
   * absent one takes the model's default (empty names, active, neither
   * staff nor superuser, competence "Not chosen").
   */
  function NewUser(email: string, password: string, extra: ExtraFields): (u: User)
    ensures u.email == email && u.password == password
    ensures extra == NoExtras ==> u == User(email, "", "", "", password, true, false, false, DefaultCompetence)
    ensures extra.username.Some? ==> u.username == extra.username.value
    ensures extra.firstName.Some? ==> u.firstName == extra.firstName.value
    ensures extra.lastName.Some? ==> u.lastName == extra.lastName.value
    ensures extra.isActive.Some? ==> u.isActive == extra.isActive.value
    ensures extra.isStaff.Some? ==> u.isStaff == extra.isStaff.value
    ensures extra.isSuperuser.Some? ==> u.isSuperuser == extra.isSuperuser.value
    ensures extra.competence.Some? ==> u.competence == extra.competence.value
  {
    User(
      email := email,
      username := extra.username.GetOr(""),
      firstName := extra.firstName.GetOr(""),
      lastName := extra.lastName.GetOr(""),
      password := password,
      isActive := extra.isActive.GetOr(true),
      isStaff := extra.isStaff.GetOr(false),
      isSuperuser := extra.isSuperuser.GetOr(false),
      competence := extra.competence.GetOr(DefaultCompetence))
  }

  /**
   * `CustomUserManager.create_user`: reject an empty e-mail, normalise
   * it, build the row and save it; the save fails when the unique
   * e-mail or username column already holds the value. On success the
   * new table and the new row's primary key are returned.
   */
  function CreateUser(users: seq<User>, email: string, password: string, extra: ExtraFields)
    : (r: Result<(seq<User>, nat), UserError>)
    ensures r.Err? ==> r.error == EmailNotSet || r.error == UniqueViolation
    ensures r == Err(EmailNotSet) <==> email == ""
    ensures r == Err(UniqueViolation) <==>
      email != "" &&
      (EmailTaken(users, NormalizeEmail(email)) || UsernameTaken(users, extra.username.GetOr("")))
    ensures r.Ok? ==>
      var (users', id) := r.value;
      && id == |users|
      && |users'| == |users| + 1
      && users'[..|users|] == users
      && users'[id].email == NormalizeEmail(email)
      && users'[id].password == password
      && users'[id].username == extra.username.GetOr("")
      && users'[id].firstName == extra.firstName.GetOr("")
      && users'[id].lastName == extra.lastName.GetOr("")
      && users'[id].isActive == extra.isActive.GetOr(true)
      && users'[id].isStaff == extra.isStaff.GetOr(false)
      && users'[id].isSuperuser == extra.isSuperuser.GetOr(false)
      && users'[id].competence == extra.competence.GetOr(DefaultCompetence)
    ensures r.Ok? && Valid(users) ==> Valid(r.value.0)
  {
    if email == "" then Err(EmailNotSet)
    else
      var user := NewUser(NormalizeEmail(email), password, extra);
      if EmailTaken(users, user.email) || UsernameTaken(users, user.username) then Err(UniqueViolation)
      else
        var users' := users + [user];
        assert users'[..|users|] == users;
        Ok((users', |users|))
  }

  /**
   * `setdefault` of the three flags, as `create_superuser` does first: an
   * absent flag becomes true, an explicit one is kept, every other keyword
   * is untouched.
   */
  function SuperuserDefaults(extra: ExtraFields): (r: ExtraFields)
    ensures r.isStaff == Some(extra.isStaff.GetOr(true))
    ensures r.isSuperuser == Some(extra.isSuperuser.GetOr(true))
    ensures r.isActive == Some(extra.isActive.GetOr(true))
    ensures r.(isStaff := extra.isStaff, isSuperuser := extra.isSuperuser, isActive := extra.isActive) == extra
  {
    extra.(isStaff := Some(extra.isStaff.GetOr(true)),
           isSuperuser := Some(extra.isSuperuser.GetOr(true)),
           isActive := Some(extra.isActive.GetOr(true)))
  }

  /**
   * `CustomUserManager.create_superuser`: default the staff, superuser
   * and active flags to true, reject an explicit false staff or
   * superuser flag (staff is checked first), then delegate to
   * `CreateUser`.
   */
  function CreateSuperuser(users: seq<User>, email: string, password: string, extra: ExtraFields)
    : (r: Result<(seq<User>, nat), UserError>)
    ensures extra.isStaff == Some(false) ==> r == Err(NotStaff)
    ensures extra.isStaff != Some(false) && extra.isSuperuser == Some(false) ==> r == Err(NotSuperuser)
    ensures r.Ok? ==> (r.value.1 < |r.value.0| &&
      var u := r.value.0[r.value.1];
      u.isStaff && u.isSuperuser && u.isActive == extra.isActive.GetOr(true))
    ensures extra.isStaff != Some(false) && extra.isSuperuser != Some(false) ==>
      r == CreateUser(users, email, password, SuperuserDefaults(extra))
    ensures r == Err(EmailNotSet) <==>
      email == "" && extra.isStaff != Some(false) && extra.isSuperuser != Some(false)
  {
    var extra' := SuperuserDefaults(extra);
    if extra'.isStaff == Some(false) then Err(NotStaff)
    else if extra'.isSuperuser == Some(false) then Err(NotSuperuser)
    else CreateUser(users, email, password, extra')
  }

  /**
   * `CustomUser.get_competence_level_display`: the label of the stored
   * competence level, `None` outside 0..5.
   */
  function CompetenceDisplay(u: User): (r: Option<string>)
    ensures r.Some? <==> 0 <= u.competence <= 5
    ensures u.competence == 0 ==> r == Some("Not chosen")
    ensures u.competence == 1 ==> r == Some("Novice")
    ensures u.competence == 2 ==> r == Some("Intermediate")
    ensures u.competence == 3 ==> r == Some("Proficient")
    ensures u.competence == 4 ==> r == Some("Advanced")
    ensures u.competence == 5 ==> r == Some("Expert")
  {
    Choices.Label(CompetenceChoices, u.competence)
  }

  /** Normalising an already normalised address changes nothing. */
  lemma NormalizeEmailIdempotent(email: string)
    ensures NormalizeEmail(NormalizeEmail(email)) == NormalizeEmail(email)
  {
    var n := NormalizeEmail(email);
    var k := LastIndexOf(email, '@');
    if k >= 0 {
      assert n[k] == '@';
      assert LastIndexOf(n, '@') == k;
      LowerIdempotent(email[k + 1..]);
    } else {
      assert n == email;
    }
  }

  /** An address with an '@' normalises to its local part, '@', and its lowered domain. */
  lemma NormalizeSplit(local: string, domain: string)
    requires '@' !in domain
    ensures NormalizeEmail(local + "@" + domain) == local + "@" + Lower(domain)
  {
    var e := local + "@" + domain;
    assert e[|local|] == '@';
    assert LastIndexOf(e, '@') == |local|;
    assert e[..|local| + 1] == local + "@";
    assert e[|local| + 1..] == domain;
  }

  /** A user created with no competence level gets level 0, labelled "Not chosen". */
  lemma DefaultCompetenceIsNotChosen(users: seq<User>, email: string, password: string)
    requires CreateUser(users, email, password, NoExtras).Ok?
    ensures var (users', id) := CreateUser(users, email, password, NoExtras).value;
      CompetenceDisplay(users'[id]) == Some("Not chosen")
  {
  }

  /**
   * Once an address is stored, creating a user with any spelling that
   * normalises to it fails, and the table keeps one row for it.
   */
  lemma SecondUserWithSameEmailFails(users: seq<User>, email: string, email2: string,
                                     password: string, password2: string,
                                     extra: ExtraFields, extra2: ExtraFields)
    requires CreateUser(users, email, password, extra).Ok?
    requires email2 != "" && NormalizeEmail(email2) == NormalizeEmail(email)
    ensures CreateUser(CreateUser(users, email, password, extra).value.0, email2, password2, extra2)
      == Err(UniqueViolation)
  {
    var (users', id) := CreateUser(users, email, password, extra).value;
    assert users'[id].email == NormalizeEmail(email2);
  }

  /**
   * Without a username the model stores the empty string in the unique
   * username column, so a second user created without one is rejected
   * even with a fresh e-mail address.
   */
  lemma SecondUserWithoutUsernameFails(users: seq<User>, email: string, email2: string,
                                       password: string, password2: string)
    requires CreateUser(users, email, password, NoExtras).Ok?
    requires email2 != ""
    ensures CreateUser(CreateUser(users, email, password, NoExtras).value.0, email2, password2, NoExtras)
      == Err(UniqueViolation)
  {
    var (users', id) := CreateUser(users, email, password, NoExtras).value;
    assert users'[id].username == "";
  }

  /**
   * The username rule the manager's normalisation test relies on: a user
   * created without a username stores no value in the column, and
   * uniqueness applies only among stored usernames, as a nullable unique
   * column would enforce it. Only a non-empty username can clash.
   */
  predicate UsernameClash(users: seq<User>, username: string) {
    username != "" && UsernameTaken(users, username)
  }

  /** The table constraints under that rule: e-mail unique, non-empty usernames unique. */
  predicate ValidBlankUsernames(users: seq<User>) {
    && (forall i, j :: 0 <= i < |users| && 0 <= j < |users| && users[i].email == users[j].email ==> i == j)
    && (forall i, j ::
          0 <= i < |users| && 0 <= j < |users| && users[i].username != "" && users[i].username == users[j].username
          ==> i == j)
  }

  /**
   * `create_user` with the username column made nullable: the same checks
   * and row as `CreateUser`, except that any number of users may be
   * created without a username.
   */
  function CreateUserBlankUsername(users: seq<User>, email: string, password: string, extra: ExtraFields)
    : (r: Result<(seq<User>, nat), UserError>)
    ensures r.Err? ==> r.error == EmailNotSet || r.error == UniqueViolation
    ensures r == Err(EmailNotSet) <==> email == ""
    ensures r == Err(UniqueViolation) <==>
      email != "" &&
      (EmailTaken(users, NormalizeEmail(email)) || UsernameClash(users, extra.username.GetOr("")))
    ensures CreateUser(users, email, password, extra).Ok? ==> r == CreateUser(users, email, password, extra)
    ensures extra.username.GetOr("") != "" ==> r == CreateUser(users, email, password, extra)
    ensures r.Ok? ==>
      var (users', id) := r.value;
      && id == |users|
      && |users'| == |users| + 1
      && users'[..|users|] == users
      && users'[id] == NewUser(NormalizeEmail(email), password, extra)
    ensures r.Ok? && ValidBlankUsernames(users) ==> ValidBlankUsernames(r.value.0)
  {
    if email == "" then Err(EmailNotSet)
    else
      var user := NewUser(NormalizeEmail(email), password, extra);
      if EmailTaken(users, user.email) || UsernameClash(users, user.username) then Err(UniqueViolation)
      else
        var users' := users + [user];
        assert users'[..|users|] == users;
        Ok((users', |users|))
  }

  /** Create one user per address in turn with `CreateUserBlankUsername`, stopping at the first error. */
  function CreateInTurn(users: seq<User>, emails: seq<string>, password: string, extra: ExtraFields)
    : Result<seq<User>, UserError>
    decreases |emails|
  {
    if emails == [] then Ok(users)
    else
      match CreateUserBlankUsername(users, emails[0], password, extra)
      case Err(e) => Err(e)
      case Ok((users', _)) => CreateInTurn(users', emails[1..], password, extra)
  }

  /**
   * Without a username, addresses that normalise to distinct values not yet
   * stored are all accepted under the nullable rule, and each stores its
   * normalised address, in order after the existing rows.
   */
  lemma {:induction false} CreateInTurnSucceeds(users: seq<User>, emails: seq<string>, password: string,
                                                extra: ExtraFields)
    requires extra.username.GetOr("") == ""
    requires forall i :: 0 <= i < |emails| ==> emails[i] != ""
    requires forall i, j ::
      0 <= i < |emails| && 0 <= j < |emails| && NormalizeEmail(emails[i]) == NormalizeEmail(emails[j])
      ==> i == j
    requires forall i :: 0 <= i < |emails| ==> !EmailTaken(users, NormalizeEmail(emails[i]))
    ensures CreateInTurn(users, emails, password, extra).Ok?
    ensures var users' := CreateInTurn(users, emails, password, extra).value;
      && |users'| == |users| + |emails|
      && users'[..|users|] == users
      && forall i :: 0 <= i < |emails| ==> users'[|users| + i].email == NormalizeEmail(emails[i])
    decreases |emails|
  {
    if emails != [] {
      var rest := emails[1..];
      var next := FirstOfTurn(users, emails, password, extra);
      CreateInTurnSucceeds(next, rest, password, extra);
      var final := CreateInTurn(next, rest, password, extra).value;
      AppendedPrefix(users, next, final);
      ShiftedEmails(users, next, final, emails);
    }
  }

  /** The stored addresses of the first row and of the rows the recursive call appended, together. */
  lemma ShiftedEmails(users: seq<User>, next: seq<User>, final: seq<User>, emails: seq<string>)
    requires emails != [] && |next| == |users| + 1 && |final| == |next| + |emails| - 1
    requires final[..|next|] == next && next[|users|].email == NormalizeEmail(emails[0])
    requires forall i :: 0 <= i < |emails[1..]| ==> final[|next| + i].email == NormalizeEmail(emails[1..][i])
    ensures forall i :: 0 <= i < |emails| ==> final[|users| + i].email == NormalizeEmail(emails[i])
  {
    forall i | 0 <= i < |emails|
      ensures final[|users| + i].email == NormalizeEmail(emails[i])
    {
      if i == 0 {
        assert final[|users|] == final[..|next|][|users|];
      } else {
        assert emails[1..][i - 1] == emails[i];
      }
    }
  }

  /**
   * The first step of `CreateInTurnSucceeds`: the first address is
   * accepted, its row is appended, and the remaining addresses still
   * meet the lemma's requirements on the grown table.
   */
  lemma FirstOfTurn(users: seq<User>, emails: seq<string>, password: string, extra: ExtraFields)
    returns (next: seq<User>)
    requires emails != []
    requires extra.username.GetOr("") == ""
    requires forall i :: 0 <= i < |emails| ==> emails[i] != ""
    requires forall i, j ::
      0 <= i < |emails| && 0 <= j < |emails| && NormalizeEmail(emails[i]) == NormalizeEmail(emails[j])
      ==> i == j
    requires forall i :: 0 <= i < |emails| ==> !EmailTaken(users, NormalizeEmail(emails[i]))
    ensures CreateUserBlankUsername(users, emails[0], password, extra).Ok?
    ensures CreateInTurn(users, emails, password, extra) == CreateInTurn(next, emails[1..], password, extra)
    ensures |next| == |users| + 1 && next[..|users|] == users
    ensures next[|users|].email == NormalizeEmail(emails[0])
    ensures forall i :: 0 <= i < |emails[1..]| ==> emails[1..][i] != ""
    ensures forall i, j ::
      0 <= i < |emails[1..]| && 0 <= j < |emails[1..]| && NormalizeEmail(emails[1..][i]) == NormalizeEmail(emails[1..][j])
      ==> i == j
    ensures forall i :: 0 <= i < |emails[1..]| ==> !EmailTaken(next, NormalizeEmail(emails[1..][i]))
  {
    var r := CreateUserBlankUsername(users, emails[0], password, extra);
    assert !UsernameClash(users, extra.username.GetOr(""));
    next := r.value.0;
    var rest := emails[1..];
    forall i, j | 0 <= i < |rest| && 0 <= j < |rest| && NormalizeEmail(rest[i]) == NormalizeEmail(rest[j])
      ensures i == j
    {
      assert rest[i] == emails[i + 1] && rest[j] == emails[j + 1];
    }
    forall i | 0 <= i < |rest|
      ensures !EmailTaken(next, NormalizeEmail(rest[i]))
    {
      assert rest[i] == emails[i + 1];
      EmailStillFree(users, next, NormalizeEmail(emails[0]), NormalizeEmail(rest[i]));
    }
  }

  /** An address not stored before one row is appended with another address is still not stored. */
  lemma EmailStillFree(users: seq<User>, next: seq<User>, added: string, email: string)
    requires |next| == |users| + 1 && next[..|users|] == users && next[|users|].email == added
    requires email != added && !EmailTaken(users, email)
    ensures !EmailTaken(next, email)
  {
    forall k | 0 <= k < |next|
      ensures next[k].email != email
    {
      if k < |users| {
        assert next[k] == next[..|users|][k];
      }
    }
  }

  /** Prefixes compose: a prefix of a prefix is a prefix. */
  lemma AppendedPrefix(users: seq<User>, next: seq<User>, final: seq<User>)
    requires |users| <= |next| <= |final|
    requires next[..|users|] == users && final[..|next|] == next
    ensures final[..|users|] == users
  {
    assert final[..|users|] == final[..|next|][..|users|];
  }

  /** The keywords of the manager's normalisation test: names, no username. */
  const NormalizationTestNames := NoExtras.(firstName := Some("test"), lastName := Some("user"))

  /**
   * As the username column is declared, the manager's normalisation test
   * stops at its second call: the first user stores the empty username,
   * and the second, with a fresh address, clashes with it.
   */
  lemma NormalizationTestRefusedAsWritten()
    ensures var first := CreateUser([], "test1@EXAMPLE.com", "sample123", NormalizationTestNames);
      && first.Ok?
      && CreateUser(first.value.0, "Test2@Example.com", "sample123", NormalizationTestNames)
         == Err(UniqueViolation)
  {
    var first := CreateUser([], "test1@EXAMPLE.com", "sample123", NormalizationTestNames);
    assert first.value.0[0].username == "";
  }

  /**
   * Under the nullable username rule a second user created without a
   * username is accepted whenever its address is new, where the column
   * as declared refuses it (`SecondUserWithoutUsernameFails`).
   */
  lemma SecondUserWithoutUsernameAccepted(users: seq<User>, email: string, email2: string,
                                          password: string, password2: string)
    requires CreateUserBlankUsername(users, email, password, NoExtras).Ok?
    requires email2 != "" && NormalizeEmail(email2) != NormalizeEmail(email)
    requires !EmailTaken(users, NormalizeEmail(email2))
    ensures var (users', id) := CreateUserBlankUsername(users, email, password, NoExtras).value;
      && CreateUserBlankUsername(users', email2, password2, NoExtras).Ok?
      && CreateUserBlankUsername(users', email2, password2, NoExtras).value.0[id + 1].email == NormalizeEmail(email2)
  {
    var (users', id) := CreateUserBlankUsername(users, email, password, NoExtras).value;
    EmailStillFree(users, users', NormalizeEmail(email), NormalizeEmail(email2));
  }
}
