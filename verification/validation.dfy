/**
 * The request-body rule sets written for the routes, as functions from a body to
 * the list of field errors they report, in rule order, and to the body after their
 * sanitizers. A body is a map from field name to its text; a field left out is not in the
 * map, and a rule that reads it sees the empty string. `isEmail` and `normalizeEmail` are
 * parameters.
 */
module Validation {
  import opened Wrappers
  import opened Strings
  import opened Numbers
  import opened Replies
  import opened BodyFields
  import opened ResourceModel
  import AuthController
  import UserController
  import ResourceController

  type Body = map<string, string>

  /** What a rule sees of a field: its text, or "" when it was left out. */
  function Text(body: Body, key: string): (t: string)
    ensures key !in body ==> t == ""
    ensures key in body ==> t == body[key]
  {
    if key in body then body[key] else ""
  }

  /** One rule: no error when it holds, otherwise the field's error. */
  function Rule(holds: bool, param: string, msg: string): (errors: seq<FieldError>)
    ensures errors == [] <==> holds
    ensures !holds ==> errors == [FieldError(param, msg)]
    ensures forall e :: e in errors ==> e.param == param
  {
    if holds then [] else [FieldError(param, msg)]
  }

  /** An optional field as the handlers receive it. */
  function Field(body: Body, key: string): (f: Option<string>)
    ensures f.Some? <==> key in body
    ensures f.Some? ==> f.value == body[key]
  {
    if key in body then Some(body[key]) else None
  }

  /** A field's text after a sanitizer, when the field was sent. */
  function MapField(body: Body, key: string, f: string -> string): (body': Body)
    ensures body'.Keys == body.Keys
    ensures key in body ==> body'[key] == f(body[key])
    ensures forall k :: k in body && k != key ==> body'[k] == body[k]
  {
    if key in body then body[key := f(body[key])] else body
  }

  // ---------------------------------------------------------------------------
  // registration and login

  /** `registerValidation`: a non-empty name (checked before it is trimmed), a valid email, a
      password of at least 6 characters, a non-empty department, a numeric semester, and, if
      sent, a role of 'student' or 'admin'. */
  function RegisterErrors(body: Body, isEmail: string -> bool): (errors: seq<FieldError>)
    ensures errors == [] <==>
      && Text(body, "name") != "" && isEmail(Text(body, "email")) && |Text(body, "password")| >= 6
      && Text(body, "department") != "" && IsNumeric(Text(body, "semester"))
      && ("role" in body ==> body["role"] == "student" || body["role"] == "admin")
    ensures "role" !in body ==> forall e :: e in errors ==> e.param != "role"
  {
    AccountErrors(body, isEmail) + StudyErrors(body)
  }

  /** The registration rules on the account fields: name, email and password. */
  function AccountErrors(body: Body, isEmail: string -> bool): (errors: seq<FieldError>)
    ensures errors == [] <==>
      Text(body, "name") != "" && isEmail(Text(body, "email")) && |Text(body, "password")| >= 6
    ensures forall e :: e in errors ==> e.param in {"name", "email", "password"}
  {
    Rule(Text(body, "name") != "", "name", "Name is required")
    + Rule(isEmail(Text(body, "email")), "email", "Please include a valid email")
    + Rule(|Text(body, "password")| >= 6, "password", "Password must be at least 6 characters long")
  }

  /** The registration rules on department, semester and role. */
  function StudyErrors(body: Body): (errors: seq<FieldError>)
    ensures errors == [] <==>
      && Text(body, "department") != "" && IsNumeric(Text(body, "semester"))
      && ("role" in body ==> body["role"] == "student" || body["role"] == "admin")
    ensures "role" !in body ==> forall e :: e in errors ==> e.param in {"department", "semester"}
  {
    Rule(Text(body, "department") != "", "department", "Department is required")
    + Rule(IsNumeric(Text(body, "semester")), "semester", "Semester must be a number")
    + (if "role" in body then
         Rule(body["role"] == "student" || body["role"] == "admin", "role", "Role must be either student or admin")
       else [])
  }

  /** The registration body after the sanitizers: the name trimmed, the email normalized. */
  function SanitizeRegister(body: Body, normalizeEmail: string -> string): (body': Body)
    ensures body'.Keys == body.Keys
  {
    MapField(MapField(body, "name", Trim), "email", normalizeEmail)
  }

  /** The registration handler's view of a sanitized body. */
  function RegisterBodyOf(body: Body): AuthController.RegisterBody
  {
    AuthController.RegisterBody(
      Field(body, "name"), Field(body, "email"), Field(body, "password"), Field(body, "department"),
      if "semester" in body then NumberText(body["semester"]) else NoNumber,
      Field(body, "role"))
  }

  /** A body the rules admit, whose name is not blank, whose normalized email is not empty and
      whose semester is a whole number, makes a user document the schema accepts. */
  lemma RegisterRulesAdmitUser(body: Body, isEmail: string -> bool, normalizeEmail: string -> string,
                               id: UserId, now: int)
    requires RegisterErrors(body, isEmail) == []
    requires !isEmail("")
    requires Trim(body["name"]) != "" && normalizeEmail(body["email"]) != ""
    requires "semester" in body && |Unsigned(body["semester"])| > 0 && AllDigits(Unsigned(body["semester"]))
    ensures AuthController.NewUser(RegisterBodyOf(SanitizeRegister(body, normalizeEmail)), id, now).Some?
  {
    assert AccountErrors(body, isEmail) == [] && StudyErrors(body) == [] by {
      assert |AccountErrors(body, isEmail) + StudyErrors(body)| == 0;
    }
    var b := SanitizeRegister(body, normalizeEmail);
    SanitizedFields(body, normalizeEmail);
    var s := body["semester"];
    SignedDigitsNumber(s);
    var rb := RegisterBodyOf(b);
    assert rb.name == Some(Trim(body["name"])) && rb.email == Some(normalizeEmail(body["email"]));
    assert rb.password == Some(body["password"]) && rb.department == Some(body["department"]);
    assert rb.semester == NumberText(s);
    assert |s| > 0 && NumberOf(s).Int?;
    assert CastNumber(rb.semester).Cast?;
    assert rb.role == Field(body, "role");
    assert AuthController.RoleOf(rb.role).Some? by {
      if "role" in body {
        assert body["role"] == "student" || body["role"] == "admin";
      }
    }
    assert Truthy(rb.name) && Truthy(rb.email) && Truthy(rb.password) && Truthy(rb.department);
  }

  /** The sanitizers change the name and the email and nothing else. */
  lemma SanitizedFields(body: Body, normalizeEmail: string -> string)
    ensures var b := SanitizeRegister(body, normalizeEmail);
      && b.Keys == body.Keys
      && ("name" in body ==> b["name"] == Trim(body["name"]))
      && ("email" in body ==> b["email"] == normalizeEmail(body["email"]))
      && ("password" in body ==> b["password"] == body["password"])
      && ("department" in body ==> b["department"] == body["department"])
      && ("semester" in body ==> b["semester"] == body["semester"])
      && ("role" in body ==> b["role"] == body["role"])
  {
    assert "name"[0] == 'n' && "email"[0] == 'e' && "password"[0] == 'p' && "department"[0] == 'd';
    assert "semester"[0] == 's' && "role"[0] == 'r';
  }

  /** The name rule looks at the name before it is trimmed: a blank name passes it and is then
      stored as "", which the schema refuses. */
  lemma BlankNamePassesRule()
    ensures var body := map["name" := " "];
      && Rule(Text(body, "name") != "", "name", "Name is required") == []
      && SanitizeRegister(body, (e: string) => e)["name"] == ""
  {
    assert IsSpace(' ');
    assert TrimStart(" ") == "";
  }

  /** `loginValidation`: a valid email and a non-empty password. */
  function LoginErrors(body: Body, isEmail: string -> bool): (errors: seq<FieldError>)
    ensures errors == [] <==> isEmail(Text(body, "email")) && Text(body, "password") != ""
    ensures |errors| <= 2
  {
    Rule(isEmail(Text(body, "email")), "email", "Please include a valid email")
    + Rule(Text(body, "password") != "", "password", "Password is required")
  }

  // ---------------------------------------------------------------------------
  // resources

  /** `resourceValidation`: non-empty title, subject and department (checked before they are
      trimmed) and a semester that is present and numeric, each failing check reported; the
      optional description, teacher and tags are never checked. */
  function ResourceErrors(body: Body): (errors: seq<FieldError>)
    ensures errors == [] <==>
      Text(body, "title") != "" && Text(body, "subject") != "" && Text(body, "department") != ""
      && IsNumeric(Text(body, "semester"))
    ensures Text(body, "semester") == "" ==>
      FieldError("semester", "Semester is required") in errors
      && FieldError("semester", "Semester must be a number") in errors
    ensures forall e :: e in errors ==> e.param in ["title", "subject", "department", "semester"]
  {
    Rule(Text(body, "title") != "", "title", "Title is required")
    + Rule(Text(body, "subject") != "", "subject", "Subject is required")
    + Rule(Text(body, "department") != "", "department", "Department is required")
    + Rule(Text(body, "semester") != "", "semester", "Semester is required")
    + Rule(IsNumeric(Text(body, "semester")), "semester", "Semester must be a number")
  }

  /** Description, teacher and tags never change the verdict, whatever is sent in them. */
  lemma ResourceOptionalFieldsUnchecked(body: Body, key: string, value: string)
    requires key in ["description", "teacher", "tags"]
    ensures ResourceErrors(body[key := value]) == ResourceErrors(body)
    ensures ResourceErrors(body - {key}) == ResourceErrors(body)
  {
    assert forall k :: k in ["title", "subject", "department", "semester"] ==> k != key;
    assert Text(body[key := value], "title") == Text(body, "title");
    assert Text(body[key := value], "subject") == Text(body, "subject");
    assert Text(body[key := value], "department") == Text(body, "department");
    assert Text(body[key := value], "semester") == Text(body, "semester");
    assert Text(body - {key}, "title") == Text(body, "title");
    assert Text(body - {key}, "subject") == Text(body, "subject");
    assert Text(body - {key}, "department") == Text(body, "department");
    assert Text(body - {key}, "semester") == Text(body, "semester");
  }

  /** The fields the resource rules trim. */
  predicate TrimmedByResourceRules(k: string)
  {
    k == "title" || k == "subject" || k == "department" || k == "description" || k == "teacher"
  }

  /** The resource body after the sanitizers: title, subject, department, description and
      teacher trimmed when sent. */
  function SanitizeResource(body: Body): (body': Body)
    ensures body'.Keys == body.Keys
    ensures forall k :: k in body && TrimmedByResourceRules(k) ==> body'[k] == Trim(body[k])
    ensures forall k :: k in body && !TrimmedByResourceRules(k) ==> body'[k] == body[k]
  {
    map k | k in body :: if TrimmedByResourceRules(k) then Trim(body[k]) else body[k]
  }

  /** The resource handlers' view of a sanitized multipart body, whose fields are all text. */
  function ResourceBodyOf(body: Body): ResourceController.ResourceBody
  {
    ResourceController.ResourceBody(
      Field(body, "title"), Field(body, "description"), Field(body, "subject"), Field(body, "department"),
      if "semester" in body then NumberText(body["semester"]) else NoNumber,
      Field(body, "teacher"),
      if "tags" in body then ResourceController.TagsText(body["tags"]) else ResourceController.NoTags)
  }

  /** The handlers see the sanitized text fields trimmed and the rest as sent. */
  lemma SanitizedResourceBody(body: Body)
    ensures var b := ResourceBodyOf(SanitizeResource(body));
      && b.title == (if "title" in body then Some(Trim(body["title"])) else None)
      && b.subject == (if "subject" in body then Some(Trim(body["subject"])) else None)
      && b.department == (if "department" in body then Some(Trim(body["department"])) else None)
      && b.semester == (if "semester" in body then NumberText(body["semester"]) else NoNumber)
  {
    assert TrimmedByResourceRules("title") && TrimmedByResourceRules("subject") && TrimmedByResourceRules("department");
    assert !TrimmedByResourceRules("semester");
  }

  /** A body the rules admit, whose title, subject and department are not blank and whose
      semester is a whole number, passes the schema's checks at creation for a stored file. */
  lemma ResourceRulesAdmitCreate(body: Body, file: ResourceController.UploadedFile)
    requires ResourceErrors(body) == []
    requires Trim(body["title"]) != "" && Trim(body["subject"]) != "" && Trim(body["department"]) != ""
    requires |Unsigned(body["semester"])| > 0 && AllDigits(Unsigned(body["semester"]))
    requires file.location != "" && file.mimetype != ""
    ensures ResourceController.BodyErrors(ResourceBodyOf(SanitizeResource(body)), file) == []
  {
    SanitizedResourceBody(body);
    SignedDigitsCast(body["semester"]);
  }

  /** Such a body, sent by a logged-in caller with a stored file, creates the resource: 201, and
      the store gains the document. */
  lemma AdmittedBodyIsCreated(store: Store, user: UserId, body: Body, file: ResourceController.UploadedFile,
                              newId: ResourceId, now: Time)
    requires !Exists(store, newId)
    requires ResourceErrors(body) == []
    requires Trim(body["title"]) != "" && Trim(body["subject"]) != "" && Trim(body["department"]) != ""
    requires |Unsigned(body["semester"])| > 0 && AllDigits(Unsigned(body["semester"]))
    requires file.location != "" && file.mimetype != ""
    ensures var step := ResourceController.CreateResource(
              store, Some(user), Some(file), ResourceBodyOf(SanitizeResource(body)), newId, now);
      && step.reply.Success? && step.reply.status == 201
      && step.store == store + [step.reply.value]
  {
    ResourceRulesAdmitCreate(body, file);
  }

  /** The verdict of `validateResource`: answer 400 with the errors, or pass on to the handler. */
  datatype Gate = Respond(status: int, errors: seq<FieldError>) | Next

  function ValidateResource(errors: seq<FieldError>): (g: Gate)
    ensures g.Next? <==> errors == []
    ensures g.Respond? ==> g == Respond(400, errors)
  {
    if errors != [] then Respond(400, errors) else Next
  }

  // ---------------------------------------------------------------------------
  // profile updates

  /** `userValidation`: every field optional; a sent email must be valid, a sent semester an
      integer from 1 to 8, a sent department 2 to 100 characters once trimmed. */
  function UserErrors(body: Body, isEmail: string -> bool): (errors: seq<FieldError>)
    ensures errors == [] <==>
      && ("email" in body ==> isEmail(body["email"]))
      && ("semester" in body ==> IsIntInRange(body["semester"], 1, 8))
      && ("department" in body ==> 2 <= |Trim(body["department"])| <= 100)
    ensures forall e :: e in errors ==> e.param in body
  {
    var email := ProfileEmailRule(body, isEmail);
    var semester := ProfileSemesterRule(body);
    var department := ProfileDepartmentRule(body);
    assert forall e :: e in email + semester ==> e in email || e in semester;
    assert forall e :: e in email + semester + department ==> e in email + semester || e in department;
    email + semester + department
  }

  function ProfileEmailRule(body: Body, isEmail: string -> bool): (errors: seq<FieldError>)
    ensures errors == [] <==> ("email" in body ==> isEmail(body["email"]))
    ensures forall e :: e in errors ==> e.param in body
  {
    if "email" in body then Rule(isEmail(body["email"]), "email", "Please include a valid email") else []
  }

  function ProfileSemesterRule(body: Body): (errors: seq<FieldError>)
    ensures errors == [] <==> ("semester" in body ==> IsIntInRange(body["semester"], 1, 8))
    ensures forall e :: e in errors ==> e.param in body
  {
    if "semester" in body then
      Rule(IsIntInRange(body["semester"], 1, 8), "semester", "Semester must be a number between 1 and 8")
    else []
  }

  function ProfileDepartmentRule(body: Body): (errors: seq<FieldError>)
    ensures errors == [] <==> ("department" in body ==> 2 <= |Trim(body["department"])| <= 100)
    ensures forall e :: e in errors ==> e.param in body
  {
    if "department" in body then
      Rule(2 <= |Trim(body["department"])| <= 100, "department", "Department must be between 2 and 100 characters")
    else []
  }

  /** An empty body passes. */
  lemma EmptyProfileBodyPasses(isEmail: string -> bool)
    ensures UserErrors(map[], isEmail) == []
  {
  }

  /** The body after the sanitizers: the email normalized, the department trimmed. */
  function SanitizeUser(body: Body, normalizeEmail: string -> string): (body': Body)
    ensures body'.Keys == body.Keys
  {
    MapField(MapField(body, "email", normalizeEmail), "department", Trim)
  }

  /** The profile handler's view of a sanitized body. */
  function ProfileBodyOf(body: Body): UserController.ProfileBody
  {
    UserController.ProfileBody(
      Field(body, "email"),
      if "semester" in body then NumberText(body["semester"]) else NoNumber,
      Field(body, "department"))
  }

  /** A body the rules admit never reaches the update validators' refusal: its semester parses
      to a number from 1 to 8 and its department is not empty (given a normalized email that is
      not empty). */
  lemma UserRulesAdmitUpdate(body: Body, isEmail: string -> bool, normalizeEmail: string -> string)
    requires UserErrors(body, isEmail) == []
    requires "email" in body ==> normalizeEmail(body["email"]) != ""
    ensures UserController.UpdateAccepted(ProfileBodyOf(SanitizeUser(body, normalizeEmail)))
    ensures "semester" in body ==>
      var x := UserController.ParseSemester(ProfileBodyOf(SanitizeUser(body, normalizeEmail)).semester);
      x.Int? && 1 <= x.v <= 8
  {
    if "semester" in body {
      IntIsNumeric(body["semester"], 1, 8);
    }
  }
}
