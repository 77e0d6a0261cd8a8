/**
 * The profile handlers: read the caller's profile, and update the caller's email, semester
 * and department, keeping the email unique across users.
 */
module UserController {
  import opened Wrappers
  import opened Numbers
  import opened ResourceModel
  import opened Replies
  import opened BodyFields
  import opened UserModel

  /** The profile a reply carries: the stored fields other than the password and the role. */
  datatype Profile = Profile(
    id: UserId, name: string, email: string, department: string, semester: int,
    createdAt: Time, updatedAt: Time)

  function ProfileOf(u: User): (p: Profile)
    ensures p.id == u.id && p.name == u.name && p.email == u.email
    ensures p.department == u.department && p.semester == u.semester
    ensures p.createdAt == u.createdAt && p.updatedAt == u.updatedAt
  {
    Profile(u.id, u.name, u.email, u.department, u.semester, u.createdAt, u.updatedAt)
  }

  /** The profile does not depend on the password: two users differing only in their password
      have the same profile. */
  lemma ProfileHidesPassword(u: User, password: string)
    ensures ProfileOf(u.(password := password)) == ProfileOf(u)
  {
  }

  /** A reply together with the user collection after the request. */
  datatype Step<T> = Step(reply: Reply<T>, users: Users)

  /** `getCurrentUser`: 401 without an authenticated id, 404 when no user has it, otherwise 200
      with the profile. */
  function GetCurrentUser(users: Users, caller: Option<UserId>): (reply: Reply<Profile>)
    ensures caller.None? ==> reply == Rejected(401, "User not authenticated")
    ensures caller.Some? && FindUser(users, caller.value) == -1 ==> reply == Rejected(404, "User not found")
    ensures reply.Success? <==> caller.Some? && FindUser(users, caller.value) != -1
    ensures reply.Success? ==>
      reply.status == 200 && reply.message == ""
      && exists i :: 0 <= i < |users| && users[i].id == caller.value && reply.value == ProfileOf(users[i])
  {
    if caller.None? then Rejected(401, "User not authenticated")
    else
      var k := FindUser(users, caller.value);
      if k == -1 then Rejected(404, "User not found")
      else Success(200, "", ProfileOf(users[k]))
  }

  // ---------------------------------------------------------------------------
  // update

  /** The fields of a profile update body; each may be left out. */
  datatype ProfileBody = ProfileBody(email: Option<string>, semester: NumberField, department: Option<string>)

  /** `parseInt(semester, 10)` of a supplied semester: a JSON number prints as its decimal text
      first. */
  function ParseSemester(f: NumberField): (x: Num)
    requires !f.NoNumber?
    ensures f.NumberValue? ==> x == Int(f.n)
    ensures f.NumberText? ==> x == ParseInt(f.text)
  {
    match f
    case NumberText(s) => ParseInt(s)
    case NumberValue(n) => ParseIntRoundTrip(n); ParseInt(IntToDecimal(n))
  }

  /** `findOne({email, _id: {$ne: caller}})` finds someone. */
  predicate EmailHeldByOther(users: Users, email: string, caller: UserId)
  {
    exists i :: 0 <= i < |users| && users[i].email == email && users[i].id != caller
  }

  /** The `$set` of an update: only the supplied fields, the timestamps' `updatedAt`, and
      nothing else. */
  function Apply(u: User, body: ProfileBody, semester: int, now: Time): (u': User)
    ensures u'.email == (if body.email.Some? then body.email.value else u.email)
    ensures u'.semester == (if body.semester.NoNumber? then u.semester else semester)
    ensures u'.department == (if body.department.Some? then body.department.value else u.department)
    ensures u'.updatedAt == now
    ensures u'.id == u.id && u'.name == u.name && u'.password == u.password
    ensures u'.role == u.role && u'.createdAt == u.createdAt
  {
    u.(email := body.email.GetOr(u.email),
       semester := if body.semester.NoNumber? then u.semester else semester,
       department := body.department.GetOr(u.department),
       updatedAt := now)
  }

  /** Whether the update validators accept the `$set`: a semester that parsed to NaN fails the
      number cast, and an email or department set to "" fails the required check. */
  predicate UpdateAccepted(body: ProfileBody)
  {
    && (body.semester.NoNumber? || ParseSemester(body.semester).Int?)
    && body.email != Some("") && body.department != Some("")
  }

  /**
   * `updateCurrentUser`: validation errors are sent back; 401 without an authenticated id; a
   * truthy email some other user holds gets 400; an update the validators refuse gets 500;
   * 404 when no user has the id; otherwise the supplied fields are set, `updatedAt` becomes
   * `now`, and 200 carries the new profile.
   */
  function UpdateCurrentUser(users: Users, errors: seq<FieldError>, caller: Option<UserId>,
                             body: ProfileBody, now: Time): (step: Step<Profile>)
    ensures |errors| > 0 ==> step == Step(Invalid(errors), users)
    ensures |errors| == 0 && caller.None? ==> step == Step(Rejected(401, "User not authenticated"), users)
    ensures |errors| == 0 && caller.Some? && Truthy(body.email) && EmailHeldByOther(users, body.email.value, caller.value) ==>
      step == Step(Rejected(400, "Email already in use by another account"), users)
    ensures step.reply.Success? <==>
      && |errors| == 0 && caller.Some?
      && !(Truthy(body.email) && EmailHeldByOther(users, body.email.value, caller.value))
      && UpdateAccepted(body) && FindUser(users, caller.value) != -1
    ensures step.reply.Success? ==>
      var k := FindUser(users, caller.value);
      var semester := if body.semester.NoNumber? then 0 else ParseSemester(body.semester).v;
      && step.users == users[k := Apply(users[k], body, semester, now)]
      && step.reply == Success(200, "Profile updated successfully", ProfileOf(step.users[k]))
    ensures !step.reply.Success? ==> step.users == users
  {
    if |errors| > 0 then Step(Invalid(errors), users)
    else if caller.None? then Step(Rejected(401, "User not authenticated"), users)
    else if Truthy(body.email) && EmailHeldByOther(users, body.email.value, caller.value) then
      Step(Rejected(400, "Email already in use by another account"), users)
    else if !UpdateAccepted(body) then Step(Rejected(500, "Server error"), users)
    else
      var k := FindUser(users, caller.value);
      if k == -1 then Step(Rejected(404, "User not found"), users)
      else
        var semester := if body.semester.NoNumber? then 0 else ParseSemester(body.semester).v;
        var u := Apply(users[k], body, semester, now);
        Step(Success(200, "Profile updated successfully", ProfileOf(u)), users[k := u])
  }

  /** After a successful update, reading the current user answers 200 with the profile the
      update replied with. */
  lemma UpdateThenGet(users: Users, errors: seq<FieldError>, caller: Option<UserId>,
                      body: ProfileBody, now: Time)
    ensures var step := UpdateCurrentUser(users, errors, caller, body, now);
      step.reply.Success? ==> GetCurrentUser(step.users, caller) == Success(200, "", step.reply.value)
  {
    var step := UpdateCurrentUser(users, errors, caller, body, now);
    if step.reply.Success? {
      var k := FindUser(users, caller.value);
      forall i | 0 <= i < k ensures step.users[i].id != caller.value {
        assert step.users[i] == users[i];
      }
      assert step.users[k].id == caller.value;
    }
  }

  /** A successful update changes no other user, and in the caller's document only the
      supplied fields and `updatedAt`; the name, password, role and creation time stay. */
  lemma UpdateChangesOnlySupplied(users: Users, caller: UserId, body: ProfileBody, now: Time)
    requires UpdateCurrentUser(users, [], Some(caller), body, now).reply.Success?
    ensures var users' := UpdateCurrentUser(users, [], Some(caller), body, now).users;
      && |users'| == |users|
      && (forall i :: 0 <= i < |users| && users[i].id != caller ==> users'[i] == users[i])
      && (forall i :: 0 <= i < |users| ==>
            && users'[i].id == users[i].id && users'[i].name == users[i].name
            && users'[i].password == users[i].password && users'[i].role == users[i].role
            && users'[i].createdAt == users[i].createdAt
            && (body.email.None? ==> users'[i].email == users[i].email)
            && (body.semester.NoNumber? ==> users'[i].semester == users[i].semester)
            && (body.department.None? ==> users'[i].department == users[i].department))
  {
  }

  /** The stored semester of a successful update is `parseInt` of the supplied text. */
  lemma UpdateStoresParsedSemester(users: Users, caller: UserId, text: string, body: ProfileBody, now: Time)
    requires body.semester == NumberText(text)
    requires UpdateCurrentUser(users, [], Some(caller), body, now).reply.Success?
    ensures var users' := UpdateCurrentUser(users, [], Some(caller), body, now).users;
      ParseInt(text) == Int(users'[FindUser(users, caller)].semester)
  {
  }

  /** An update keeps the user collection valid: emails stay unique and the required fields
      non-empty. */
  lemma UpdateKeepsValid(users: Users, errors: seq<FieldError>, caller: Option<UserId>,
                         body: ProfileBody, now: Time)
    requires UsersValid(users)
    ensures UsersValid(UpdateCurrentUser(users, errors, caller, body, now).users)
  {
    var step := UpdateCurrentUser(users, errors, caller, body, now);
    if step.reply.Success? {
      var k := FindUser(users, caller.value);
      var users' := step.users;
      forall i, j | 0 <= i < j < |users'| ensures users'[i].email != users'[j].email {
        if i == k || j == k {
          var other := if i == k then j else i;
          if body.email.Some? {
            assert users[other].id != caller.value;
          }
        }
      }
    }
  }

  /** Submitting one's own current email is not refused as taken, when emails are unique. */
  lemma OwnEmailAllowed(users: Users, k: nat)
    requires UsersValid(users) && k < |users|
    ensures !EmailHeldByOther(users, users[k].email, users[k].id)
  {
  }
}
