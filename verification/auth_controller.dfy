/**
 * The account handlers: register, log in, request a password-reset code and spend it. Each
 * request is one atomic step from the user collection and the reset entries to a reply and
 * the two collections after it. The validator's result arrives as a list of field errors;
 * the random source and the clock are parameters.
 */
module AuthController {
  import opened Wrappers
  import opened Numbers
  import opened Collections
  import opened ResourceModel
  import opened Replies
  import opened BodyFields
  import opened UserModel
  import opened PasswordResets

  /** The two collections the account handlers read and write. */
  datatype Accounts = Accounts(users: Users, resets: Resets)

  /** A reply together with the collections after the request. */
  datatype Step<T> = Step(reply: Reply<T>, accounts: Accounts)

  /** The user object a register or login reply carries (the signed token aside). */
  datatype AuthUser = AuthUser(
    id: UserId, name: string, email: string, role: Role, department: string, semester: int)

  function AuthUserOf(u: User): (a: AuthUser)
    ensures a.id == u.id && a.name == u.name && a.email == u.email && a.role == u.role
    ensures a.department == u.department && a.semester == u.semester
  {
    AuthUser(u.id, u.name, u.email, u.role, u.department, u.semester)
  }

  // ---------------------------------------------------------------------------
  // register

  /** The fields of a registration body. */
  datatype RegisterBody = RegisterBody(
    name: Option<string>,
    email: Option<string>,
    password: Option<string>,
    department: Option<string>,
    semester: NumberField,
    role: Option<string>)

  /** The role a new user gets: `role || 'student'`, then the enumeration check. */
  function RoleOf(role: Option<string>): (r: Option<Role>)
    ensures !Truthy(role) ==> r == Some(Student)
    ensures Truthy(role) ==> r == ParseRole(role.value)
  {
    if Truthy(role) then ParseRole(role.value) else Some(Student)
  }

  /** The document `new User(...)` builds, when it passes the schema's validation on save:
      required strings present and non-empty, the semester cast to a number, the role in the
      enumeration. */
  function NewUser(body: RegisterBody, id: UserId, now: Time): (u: Option<User>)
    ensures u.Some? <==>
      && Truthy(body.name) && Truthy(body.email) && Truthy(body.password) && Truthy(body.department)
      && CastNumber(body.semester).Cast? && RoleOf(body.role).Some?
    ensures u.Some? ==>
      && UserHasRequiredFields(u.value)
      && u.value.id == id && u.value.createdAt == now && u.value.updatedAt == now
      && Some(u.value.name) == body.name && Some(u.value.email) == body.email
      && Some(u.value.password) == body.password && Some(u.value.department) == body.department
      && CastNumber(body.semester) == Cast(u.value.semester)
      && RoleOf(body.role) == Some(u.value.role)
  {
    var semester := CastNumber(body.semester);
    var role := RoleOf(body.role);
    if Truthy(body.name) && Truthy(body.email) && Truthy(body.password) && Truthy(body.department)
       && semester.Cast? && role.Some?
    then Some(User(id, body.name.value, body.email.value, body.password.value, role.value,
                   body.department.value, semester.value, now, now))
    else None
  }

  /** `findOne({email})` for an optional email: an absent one matches no stored user, all of
      which hold an email. */
  function LookupEmail(users: Users, email: Option<string>): (k: int)
    ensures -1 <= k < |users|
    ensures email.Some? ==> k == FindByEmail(users, email.value)
    ensures email.None? ==> k == -1
  {
    if email.Some? then FindByEmail(users, email.value) else -1
  }

  /**
   * `registerUser`: validation errors are sent back as they are; an email already held gets
   * 400; a document that fails the schema (a missing field, a semester that is not a number,
   * a role outside the enumeration) gets 500; otherwise the user is appended with `newId`
   * and both timestamps at `now`, and 201 carries its public fields. Only success changes the
   * collections.
   */
  function Register(accounts: Accounts, errors: seq<FieldError>, body: RegisterBody,
                    newId: UserId, now: Time): (step: Step<AuthUser>)
    ensures |errors| > 0 ==> step == Step(Invalid(errors), accounts)
    ensures |errors| == 0 && LookupEmail(accounts.users, body.email) != -1 ==>
      step == Step(Rejected(400, "User already exists with this email"), accounts)
    ensures |errors| == 0 && LookupEmail(accounts.users, body.email) == -1 && NewUser(body, newId, now).None? ==>
      step == Step(Rejected(500, "Server error during registration"), accounts)
    ensures step.reply.Success? <==>
      |errors| == 0 && LookupEmail(accounts.users, body.email) == -1 && NewUser(body, newId, now).Some?
    ensures step.reply.Success? ==>
      var u := NewUser(body, newId, now).value;
      && step.reply == Success(201, "User registered successfully", AuthUserOf(u))
      && step.accounts == Accounts(accounts.users + [u], accounts.resets)
    ensures !step.reply.Success? ==> step.accounts == accounts
  {
    if |errors| > 0 then Step(Invalid(errors), accounts)
    else if LookupEmail(accounts.users, body.email) != -1 then
      Step(Rejected(400, "User already exists with this email"), accounts)
    else match NewUser(body, newId, now)
      case None => Step(Rejected(500, "Server error during registration"), accounts)
      case Some(u) =>
        Step(Success(201, "User registered successfully", AuthUserOf(u)),
             Accounts(accounts.users + [u], accounts.resets))
  }

  /** Registration keeps the user collection valid: the new email is not yet taken and the new
      id is fresh. */
  lemma RegisterKeepsValid(accounts: Accounts, errors: seq<FieldError>, body: RegisterBody,
                           newId: UserId, now: Time)
    requires UsersValid(accounts.users) && FindUser(accounts.users, newId) == -1
    ensures UsersValid(Register(accounts, errors, body, newId, now).accounts.users)
  {
    var step := Register(accounts, errors, body, newId, now);
    if step.reply.Success? {
      var users := accounts.users;
      var u := NewUser(body, newId, now).value;
      var users' := users + [u];
      assert FindByEmail(users, u.email) == -1;
      forall i, j | 0 <= i < j < |users'|
        ensures users'[i].email != users'[j].email && users'[i].id != users'[j].id
      {
        if j == |users| {
          assert users'[i] == users[i];
        }
      }
    }
  }

  /** A role left out or sent empty registers a student. */
  lemma RegisterDefaultsToStudent(accounts: Accounts, errors: seq<FieldError>, body: RegisterBody,
                                  newId: UserId, now: Time)
    requires !Truthy(body.role)
    requires Register(accounts, errors, body, newId, now).reply.Success?
    ensures Register(accounts, errors, body, newId, now).reply.value.role == Student
    ensures Last(Register(accounts, errors, body, newId, now).accounts.users).role == Student
  {
  }

  /** The last element of a non-empty sequence. */
  function Last<T>(s: seq<T>): T
    requires |s| > 0
  {
    s[|s| - 1]
  }

  // ---------------------------------------------------------------------------
  // login

  /**
   * `loginUser` as it is evidently meant to work: validation errors are sent back; an unknown
   * email and a wrong password get the same 401; otherwise 200 with the user's public fields.
   * `matches(candidate, stored)` is the password comparison the handler calls as
   * `user.comparePassword`, a method the User schema does not define (`LoginAsWritten` is the
   * handler as the code stands). Login changes nothing.
   */
  function Login(users: Users, errors: seq<FieldError>, email: string, password: string,
                 matches: (string, string) -> bool): (reply: Reply<AuthUser>)
    ensures |errors| > 0 ==> reply == Invalid(errors)
    ensures reply.Success? <==>
      |errors| == 0 && FindByEmail(users, email) != -1
      && matches(password, users[FindByEmail(users, email)].password)
    ensures reply.Success? ==>
      reply == Success(200, "Login successful", AuthUserOf(users[FindByEmail(users, email)]))
    ensures |errors| == 0 && !reply.Success? ==> reply == Rejected(401, "Invalid credentials")
  {
    if |errors| > 0 then Invalid(errors)
    else
      var k := FindByEmail(users, email);
      if k == -1 then Rejected(401, "Invalid credentials")
      else if !matches(password, users[k].password) then Rejected(401, "Invalid credentials")
      else Success(200, "Login successful", AuthUserOf(users[k]))
  }

  /** The reply does not tell an unknown email from a wrong password: asking with an email no
      user holds gets the very reply a known email with a rejected password gets. */
  lemma LoginHidesUnknownEmail(users: Users, email: string, other: string, password: string,
                               guess: string, matches: (string, string) -> bool)
    requires FindByEmail(users, email) == -1
    requires FindByEmail(users, other) != -1
    requires !matches(guess, users[FindByEmail(users, other)].password)
    ensures Login(users, [], email, password, matches) == Login(users, [], other, guess, matches)
  {
  }

  /** A user who just registered can log in with the password they registered with, given a
      password comparison that accepts the stored password itself. */
  lemma RegisterThenLogin(accounts: Accounts, body: RegisterBody, newId: UserId, now: Time,
                          matches: (string, string) -> bool)
    requires UsersValid(accounts.users)
    requires Register(accounts, [], body, newId, now).reply.Success?
    requires forall p :: matches(p, p)
    ensures var users := Register(accounts, [], body, newId, now).accounts.users;
      Login(users, [], body.email.value, body.password.value, matches)
        == Success(200, "Login successful", Register(accounts, [], body, newId, now).reply.value)
  {
    var u := NewUser(body, newId, now).value;
    var users := accounts.users + [u];
    assert FindByEmail(accounts.users, u.email) == -1;
    assert forall i :: 0 <= i < |accounts.users| ==> users[i].email != u.email;
    assert users[|accounts.users|].email == u.email;
    var k := FindByEmail(users, u.email);
    assert k == |accounts.users|;
  }

  /** `loginUser` as the code stands. The User schema defines no `comparePassword`, so for a
      registered email the call throws, and the catch block answers 500; only validation
      errors and an unknown email are answered as intended. */
  function LoginAsWritten(users: Users, errors: seq<FieldError>, email: string, password: string)
    : (reply: Reply<AuthUser>)
    ensures |errors| > 0 ==> reply == Invalid(errors)
    ensures |errors| == 0 && FindByEmail(users, email) == -1 ==> reply == Rejected(401, "Invalid credentials")
    ensures |errors| == 0 && FindByEmail(users, email) != -1 ==> reply == Rejected(500, "Server error during login")
  {
    if |errors| > 0 then Invalid(errors)
    else if FindByEmail(users, email) == -1 then Rejected(401, "Invalid credentials")
    else Rejected(500, "Server error during login")
  }

  /** The handler as written agrees with the intended login exactly on the requests that never
      reach the password comparison, whatever that comparison is. */
  lemma LoginAsWrittenDiverges(users: Users, errors: seq<FieldError>, email: string, password: string,
                               matches: (string, string) -> bool)
    ensures LoginAsWritten(users, errors, email, password) == Login(users, errors, email, password, matches)
        <==> |errors| > 0 || FindByEmail(users, email) == -1
  {
  }

  /** As written, the login tells a registered email from an unregistered one: 500 against
      401, whatever passwords are sent. */
  lemma LoginAsWrittenRevealsRegistration(users: Users, email: string, other: string,
                                          password: string, guess: string)
    requires FindByEmail(users, email) == -1 && FindByEmail(users, other) != -1
    ensures LoginAsWritten(users, [], email, password).status == 401
    ensures LoginAsWritten(users, [], other, guess).status == 500
  {
  }

  /** As written, nobody who has just registered can log in with their own password: the reply
      is the 500 of the catch block. */
  lemma RegisterThenLoginAsWritten(accounts: Accounts, body: RegisterBody, newId: UserId, now: Time)
    requires UsersValid(accounts.users)
    requires Register(accounts, [], body, newId, now).reply.Success?
    ensures var users := Register(accounts, [], body, newId, now).accounts.users;
      LoginAsWritten(users, [], body.email.value, body.password.value)
        == Rejected(500, "Server error during login")
  {
    var u := NewUser(body, newId, now).value;
    var users := accounts.users + [u];
    assert users[|accounts.users|].email == u.email;
  }

  // ---------------------------------------------------------------------------
  // forgot password

  /** Fifteen minutes in milliseconds. */
  const ResetValidity: int := 15 * 60 * 1000

  /** `Math.floor(100000 + random * 900000)` for a draw `random` in [0, 1). */
  function CodeNumber(random: real): (n: nat)
    requires 0.0 <= random < 1.0
    ensures 100000 <= n <= 999999
  {
    var x := 100000.0 + random * 900000.0;
    assert 100000.0 <= x < 1000000.0;
    x.Floor
  }

  /** The reset code for a draw: the decimal text of `CodeNumber(random)`. */
  function ResetCode(random: real): (code: string)
    requires 0.0 <= random < 1.0
  {
    NatToDecimal(CodeNumber(random))
  }

  /** Every code is six decimal digits with no leading zero. */
  lemma ResetCodeIsSixDigits(random: real)
    requires 0.0 <= random < 1.0
    ensures var code := ResetCode(random);
      |code| == 6 && AllDigits(code) && code[0] != '0'
      && DigitsValue(code) == CodeNumber(random)
  {
    var n := CodeNumber(random);
    assert Pow10(5) == 100000 && Pow10(6) == 1000000;
    DecimalLength(n, 6);
    DecimalRoundTrip(n);
  }

  /**
   * `forgotPassword`: validation errors are sent back; an email no user holds gets 404; otherwise
   * every entry of the email is deleted and one unused entry with the drawn code, expiring 15
   * minutes after `now`, is added. If the new entry fails the schema (an empty email) or the
   * mail is not sent, the reply is 500 but the store changes already made stay. The user
   * collection never changes.
   */
  function ForgotPassword(accounts: Accounts, errors: seq<FieldError>, email: string,
                          random: real, now: Time, mailSent: bool): (step: Step<string>)
    requires 0.0 <= random < 1.0
    ensures step.accounts.users == accounts.users
    ensures |errors| > 0 ==> step == Step(Invalid(errors), accounts)
    ensures |errors| == 0 && FindByEmail(accounts.users, email) == -1 ==>
      step == Step(Rejected(404, "User not found with this email address"), accounts)
    ensures step.reply.Success? <==>
      |errors| == 0 && FindByEmail(accounts.users, email) != -1 && email != "" && mailSent
    ensures step.reply.Success? ==>
      step.reply == Success(200, "Password reset code sent to your email address", email)
    ensures step.reply.Rejected? && step.reply.status == 500 ==>
      step.reply.message == "Server error while processing password reset"
  {
    if |errors| > 0 then Step(Invalid(errors), accounts)
    else if FindByEmail(accounts.users, email) == -1 then
      Step(Rejected(404, "User not found with this email address"), accounts)
    else
      var kept := DeleteByEmail(accounts.resets, email);
      var entry := ResetEntry(email, ResetCode(random), now + ResetValidity, false);
      if !EntryHasRequiredFields(entry) then
        Step(Rejected(500, "Server error while processing password reset"), Accounts(accounts.users, kept))
      else if !mailSent then
        Step(Rejected(500, "Server error while processing password reset"),
             Accounts(accounts.users, kept + [entry]))
      else
        Step(Success(200, "Password reset code sent to your email address", email),
             Accounts(accounts.users, kept + [entry]))
  }

  /** After a successful request the email has exactly one entry, the last one: unused, holding
      the drawn code and expiring 15 minutes after `now`. Entries of other emails are kept, each
      as many times as before. */
  lemma ForgotLeavesOneFreshEntry(accounts: Accounts, email: string, random: real, now: Time,
                                  mailSent: bool)
    requires 0.0 <= random < 1.0
    requires ForgotPassword(accounts, [], email, random, now, mailSent).reply.Success?
    ensures var resets := ForgotPassword(accounts, [], email, random, now, mailSent).accounts.resets;
      && |resets| > 0
      && Last(resets) == ResetEntry(email, ResetCode(random), now + 900000, false)
      && (forall i :: 0 <= i < |resets| - 1 ==> resets[i].email != email)
      && (forall e: ResetEntry :: e.email != email ==> multiset(resets)[e] == multiset(accounts.resets)[e])
  {
    var kept := DeleteByEmail(accounts.resets, email);
    var resets := ForgotPassword(accounts, [], email, random, now, mailSent).accounts.resets;
    assert resets == kept + [ResetEntry(email, ResetCode(random), now + ResetValidity, false)];
    forall i | 0 <= i < |resets| - 1 ensures resets[i].email != email {
      assert resets[i] in kept;
    }
  }

  /** A request for a known email, whatever the mail outcome, keeps at most one entry per
      email. */
  lemma ForgotKeepsOnePerEmail(accounts: Accounts, errors: seq<FieldError>, email: string,
                               random: real, now: Time, mailSent: bool)
    requires 0.0 <= random < 1.0
    requires AtMostOnePerEmail(accounts.resets)
    ensures AtMostOnePerEmail(ForgotPassword(accounts, errors, email, random, now, mailSent).accounts.resets)
  {
    if |errors| == 0 && FindByEmail(accounts.users, email) != -1 {
      var kept := DeleteByEmail(accounts.resets, email);
      var entry := ResetEntry(email, ResetCode(random), now + ResetValidity, false);
      FilterKeepsOnePerEmail(accounts.resets, (e: ResetEntry) => e.email != email);
      AppendKeepsOnePerEmail(kept, entry);
    }
  }

  // ---------------------------------------------------------------------------
  // reset password

  /** `user.password = newPassword; user.save()`: the timestamps stamp `updatedAt` with the time
      of the save exactly when the assignment changed the password; a save with nothing
      modified keeps the old stamp. */
  function WithPassword(u: User, newPassword: string, now: Time): (u': User)
    ensures u'.password == newPassword
    ensures u'.updatedAt == now <== u.password != newPassword
    ensures u.password == newPassword ==> u' == u
    ensures u' == u.(password := newPassword, updatedAt := u'.updatedAt)
  {
    if u.password == newPassword then u else u.(password := newPassword, updatedAt := now)
  }

  /**
   * `resetPassword`: validation errors are sent back; with no spendable entry for the email and
   * code at `now` the reply is 400; with no user holding the email, 404; then the user's
   * password becomes `newPassword`, with `updatedAt` stamped when it changed (500 if the user document then fails the schema, for
   * instance an empty password, and nothing is saved) and the entry is marked used (500 if the
   * entry fails the schema, after the password was saved). Only success and that last 500
   * change anything.
   */
  function ResetPassword(accounts: Accounts, errors: seq<FieldError>, email: string, code: string,
                         newPassword: string, now: Time): (step: Step<()>)
    ensures |errors| > 0 ==> step == Step(Invalid(errors), accounts)
    ensures |errors| == 0 && FindSpendable(accounts.resets, email, code, now) == -1 ==>
      step == Step(Rejected(400, "Invalid or expired reset code"), accounts)
    ensures |errors| == 0 && FindSpendable(accounts.resets, email, code, now) != -1
            && FindByEmail(accounts.users, email) == -1 ==>
      step == Step(Rejected(404, "User not found"), accounts)
    ensures step.reply.Success? ==>
      var k := FindSpendable(accounts.resets, email, code, now);
      var u := FindByEmail(accounts.users, email);
      && |errors| == 0 && k != -1 && u != -1
      && step.reply == Success(200, "Password has been successfully reset", ())
      && step.accounts.users == accounts.users[u := WithPassword(accounts.users[u], newPassword, now)]
      && step.accounts.resets == accounts.resets[k := accounts.resets[k].(used := true)]
    ensures step.reply.Success? <==>
      && |errors| == 0 && FindSpendable(accounts.resets, email, code, now) != -1
      && FindByEmail(accounts.users, email) != -1
      && UserHasRequiredFields(accounts.users[FindByEmail(accounts.users, email)].(password := newPassword))
      && EntryHasRequiredFields(accounts.resets[FindSpendable(accounts.resets, email, code, now)])
    ensures step.reply.Rejected? && step.reply.status == 500 ==>
      step.reply.message == "Server error while resetting password"
    ensures !step.reply.Success? && step.accounts != accounts ==>
      step.reply == Rejected(500, "Server error while resetting password")
      && step.accounts.resets == accounts.resets
  {
    if |errors| > 0 then Step(Invalid(errors), accounts)
    else
      var k := FindSpendable(accounts.resets, email, code, now);
      if k == -1 then Step(Rejected(400, "Invalid or expired reset code"), accounts)
      else
        var u := FindByEmail(accounts.users, email);
        if u == -1 then Step(Rejected(404, "User not found"), accounts)
        else
          var user := WithPassword(accounts.users[u], newPassword, now);
          if !UserHasRequiredFields(user) then
            Step(Rejected(500, "Server error while resetting password"), accounts)
          else
            var users := accounts.users[u := user];
            var entry := accounts.resets[k].(used := true);
            if !EntryHasRequiredFields(entry) then
              Step(Rejected(500, "Server error while resetting password"), Accounts(users, accounts.resets))
            else
              Step(Success(200, "Password has been successfully reset", ()),
                   Accounts(users, accounts.resets[k := entry]))
  }

  /** A spent code cannot be spent again: with at most one entry per email, after a successful
      reset no entry of that email is spendable at any time, so the same request gets 400. */
  lemma ResetCodeSpentOnce(accounts: Accounts, email: string, code: string, newPassword: string,
                           now: Time, later: Time, password: string)
    requires AtMostOnePerEmail(accounts.resets)
    requires ResetPassword(accounts, [], email, code, newPassword, now).reply.Success?
    ensures var after := ResetPassword(accounts, [], email, code, newPassword, now).accounts;
      && (forall c :: FindSpendable(after.resets, email, c, later) == -1)
      && ResetPassword(after, [], email, code, password, later).reply
           == Rejected(400, "Invalid or expired reset code")
  {
    var k := FindSpendable(accounts.resets, email, code, now);
    var after := ResetPassword(accounts, [], email, code, newPassword, now).accounts;
    forall c ensures FindSpendable(after.resets, email, c, later) == -1 {
      forall i | 0 <= i < |after.resets| ensures !Spendable(after.resets[i], email, c, later) {
        if i != k {
          assert after.resets[i] == accounts.resets[i];
          assert accounts.resets[i].email != accounts.resets[k].email by {
            if i < k {} else {}
          }
        }
      }
    }
  }

  /** A code issued by a successful request can be spent until it expires: resetting with it
      at an earlier time succeeds for a valid user collection and a non-empty password. */
  lemma ForgotThenReset(accounts: Accounts, email: string, random: real, now: Time,
                        later: Time, newPassword: string)
    requires 0.0 <= random < 1.0
    requires UsersValid(accounts.users)
    requires ForgotPassword(accounts, [], email, random, now, true).reply.Success?
    requires later < now + 900000 && newPassword != ""
    ensures var after := ForgotPassword(accounts, [], email, random, now, true).accounts;
      ResetPassword(after, [], email, ResetCode(random), newPassword, later).reply.Success?
  {
    var after := ForgotPassword(accounts, [], email, random, now, true).accounts;
    ForgotLeavesOneFreshEntry(accounts, email, random, now, true);
    var last := |after.resets| - 1;
    assert Spendable(after.resets[last], email, ResetCode(random), later);
    var k := FindSpendable(after.resets, email, ResetCode(random), later);
    assert k == last;
    var u := FindByEmail(accounts.users, email);
    assert UserHasRequiredFields(accounts.users[u]);
  }
}
