/**
 * The reset-password form: the schema checked before submission, the field whose message each
 * failure is shown on, and how the server's error answer is routed back to the form.
 */
module ResetForm {
  import opened Wrappers
  import opened Numbers
  import opened Replies
  import opened Strings
  import AuthController

  /** The four inputs of the form; the inputs always hold strings. */
  datatype ResetInput = ResetInput(email: string, resetCode: string, newPassword: string, confirmPassword: string)

  /** `/^\d+$/`: one or more ASCII digits. */
  predicate OnlyDigits(s: string)
  {
    |s| > 0 && AllDigits(s)
  }

  /** The schema's checks on each field, in the order it reports them. String checks do not
      stop at the first failure: a code can fail both its length and its digits. Lengths are
      JavaScript's, in UTF-16 code units. */
  function EmailIssues(isEmail: string -> bool, f: ResetInput): (issues: seq<FieldError>)
    ensures forall i :: 0 <= i < |issues| ==> issues[i].param == "email"
    ensures |issues| == 0 <==> isEmail(f.email)
  {
    if isEmail(f.email) then [] else [FieldError("email", "Please include a valid email")]
  }

  function CodeIssues(f: ResetInput): (issues: seq<FieldError>)
    ensures forall i :: 0 <= i < |issues| ==> issues[i].param == "resetCode"
    ensures |issues| == 0 <==> Utf16Length(f.resetCode) == 6 && AllDigits(f.resetCode)
    ensures Utf16Length(f.resetCode) != 6 ==> issues[0].msg == "Reset code must be exactly 6 digits"
    ensures Utf16Length(f.resetCode) == 6 && !AllDigits(f.resetCode) ==>
      issues[0].msg == "Reset code must contain only numbers"
  {
    (if Utf16Length(f.resetCode) == 6 then [] else [FieldError("resetCode", "Reset code must be exactly 6 digits")])
    + (if OnlyDigits(f.resetCode) then [] else [FieldError("resetCode", "Reset code must contain only numbers")])
  }

  function PasswordIssues(f: ResetInput): (issues: seq<FieldError>)
    ensures forall i :: 0 <= i < |issues| ==> issues[i].param == "newPassword"
    ensures |issues| == 0 <==> Utf16Length(f.newPassword) >= 6
  {
    if Utf16Length(f.newPassword) >= 6 then [] else [FieldError("newPassword", "Password must be at least 6 characters long")]
  }

  /** The confirmation's own check, then the object-level mismatch check, which runs even when
      a field has failed and reports on the confirmation. */
  function ConfirmIssues(f: ResetInput): (issues: seq<FieldError>)
    ensures forall i :: 0 <= i < |issues| ==> issues[i].param == "confirmPassword"
    ensures |issues| == 0 <==> f.confirmPassword == f.newPassword && |f.confirmPassword| >= 1
    ensures f.newPassword != f.confirmPassword ==>
      issues[0].msg == (if f.confirmPassword == "" then "Please confirm your password"
                        else "Password confirmation does not match new password")
      && issues[|issues| - 1].msg == "Password confirmation does not match new password"
  {
    (if |f.confirmPassword| >= 1 then [] else [FieldError("confirmPassword", "Please confirm your password")])
    + (if f.newPassword == f.confirmPassword then []
       else [FieldError("confirmPassword", "Password confirmation does not match new password")])
  }

  /** All the schema's issues; `isEmail` is the email format check. */
  function SchemaIssues(isEmail: string -> bool, f: ResetInput): (issues: seq<FieldError>)
    ensures |issues| == 0 <==>
      isEmail(f.email) && Utf16Length(f.resetCode) == 6 && OnlyDigits(f.resetCode)
      && Utf16Length(f.newPassword) >= 6 && f.confirmPassword == f.newPassword
  {
    EmailIssues(isEmail, f) + CodeIssues(f) + PasswordIssues(f) + ConfirmIssues(f)
  }

  /** The message a field shows: its first issue. */
  function FieldMessage(issues: seq<FieldError>, field: string): (m: Option<string>)
    ensures m.None? <==> forall i :: 0 <= i < |issues| ==> issues[i].param != field
    ensures m.Some? ==> FieldError(field, m.value) in issues
  {
    if |issues| == 0 then None
    else if issues[0].param == field then Some(issues[0].msg)
    else FieldMessage(issues[1..], field)
  }

  /** A field's message skips a prefix that does not mention the field. */
  lemma {:induction false} FirstAfterOthers(a: seq<FieldError>, b: seq<FieldError>, field: string)
    requires forall i :: 0 <= i < |a| ==> a[i].param != field
    ensures FieldMessage(a + b, field) == FieldMessage(b, field)
  {
    if |a| > 0 {
      assert (a + b)[1..] == a[1..] + b;
      FirstAfterOthers(a[1..], b, field);
    } else {
      assert a + b == b;
    }
  }

  /** The message of a field whose issues come first is the first of them, and none when it
      has no issues and nothing after them mentions it. */
  lemma FirstOfOwn(own: seq<FieldError>, rest: seq<FieldError>, field: string)
    requires forall i :: 0 <= i < |own| ==> own[i].param == field
    requires forall i :: 0 <= i < |rest| ==> rest[i].param != field
    ensures FieldMessage(own + rest, field) == if |own| > 0 then Some(own[0].msg) else None
  {
    if |own| > 0 {
      assert (own + rest)[0] == own[0];
    } else {
      assert own + rest == rest;
    }
  }

  /** Every issue in `xs` is on field `p`. */
  predicate Tagged(xs: seq<FieldError>, p: string)
  {
    forall i :: 0 <= i < |xs| ==> xs[i].param == p
  }

  /** No issue in `xs` is on `field`. */
  predicate Silent(xs: seq<FieldError>, field: string)
  {
    forall i :: 0 <= i < |xs| ==> xs[i].param != field
  }

  lemma SilentConcat(x: seq<FieldError>, y: seq<FieldError>, field: string)
    requires Silent(x, field) && Silent(y, field)
    ensures Silent(x + y, field)
  {
    forall i | 0 <= i < |x + y| ensures (x + y)[i].param != field {
      if i < |x| { assert (x + y)[i] == x[i]; } else { assert (x + y)[i] == y[i - |x|]; }
    }
  }

  /** The first message of a run of issues on one field. */
  function FirstMsg(own: seq<FieldError>): Option<string>
  {
    if |own| > 0 then Some(own[0].msg) else None
  }

  /** With the issues grouped in four runs on four distinct fields, a field shows the first
      issue of its own run. */
  lemma MessageOfRuns(a: seq<FieldError>, b: seq<FieldError>, c: seq<FieldError>, d: seq<FieldError>,
                      pa: string, pb: string, pc: string, pd: string, field: string)
    requires Tagged(a, pa) && Tagged(b, pb) && Tagged(c, pc) && Tagged(d, pd)
    requires pa != pb && pa != pc && pa != pd && pb != pc && pb != pd && pc != pd
    requires field == pa || field == pb || field == pc || field == pd
    ensures FieldMessage(a + b + c + d, field) ==
      if field == pa then FirstMsg(a) else if field == pb then FirstMsg(b)
      else if field == pc then FirstMsg(c) else FirstMsg(d)
  {
    if field == pa {
      SilentConcat(b, c, field);
      SilentConcat(b + c, d, field);
      assert a + b + c + d == a + (b + c + d);
      FirstOfOwn(a, b + c + d, field);
    } else if field == pb {
      SilentConcat(c, d, field);
      assert a + b + c + d == a + (b + (c + d));
      FirstAfterOthers(a, b + (c + d), field);
      FirstOfOwn(b, c + d, field);
    } else if field == pc {
      SilentConcat(a, b, field);
      assert a + b + c + d == (a + b) + (c + d);
      FirstAfterOthers(a + b, c + d, field);
      FirstOfOwn(c, d, field);
    } else {
      SilentConcat(a, b, field);
      SilentConcat(a + b, c, field);
      FirstAfterOthers(a + b + c, d, field);
      FirstOfOwn(d, [], field);
      assert d + [] == d;
    }
  }

  /** The schema's issues in its four runs, one per input. */
  lemma SchemaRuns(isEmail: string -> bool, f: ResetInput, field: string)
    requires field == "email" || field == "resetCode" || field == "newPassword" || field == "confirmPassword"
    ensures FieldMessage(SchemaIssues(isEmail, f), field) ==
      if field == "email" then FirstMsg(EmailIssues(isEmail, f))
      else if field == "resetCode" then FirstMsg(CodeIssues(f))
      else if field == "newPassword" then FirstMsg(PasswordIssues(f))
      else FirstMsg(ConfirmIssues(f))
  {
    assert |"email"| == 5 && |"resetCode"| == 9 && |"newPassword"| == 11 && |"confirmPassword"| == 15;
    MessageOfRuns(EmailIssues(isEmail, f), CodeIssues(f), PasswordIssues(f), ConfirmIssues(f),
                  "email", "resetCode", "newPassword", "confirmPassword", field);
  }

  /** The code field is clean exactly for six digits; a code of the wrong length shows the
      length message, and a six-character code with another character the digits message. */
  lemma ResetCodeRule(isEmail: string -> bool, f: ResetInput)
    ensures var m := FieldMessage(SchemaIssues(isEmail, f), "resetCode");
      && (m.None? <==> Utf16Length(f.resetCode) == 6 && AllDigits(f.resetCode))
      && (Utf16Length(f.resetCode) != 6 ==> m == Some("Reset code must be exactly 6 digits"))
      && (Utf16Length(f.resetCode) == 6 && !AllDigits(f.resetCode) ==>
            m == Some("Reset code must contain only numbers"))
  {
    SchemaRuns(isEmail, f, "resetCode");
  }

  /** A mismatch is shown on the confirmation field, unless the confirmation is empty, which
      shows its own message first; it is also the last issue reported. */
  lemma MismatchShownOnConfirmation(isEmail: string -> bool, f: ResetInput)
    requires f.newPassword != f.confirmPassword
    ensures var issues := SchemaIssues(isEmail, f);
      && FieldMessage(issues, "confirmPassword") ==
         Some(if f.confirmPassword == "" then "Please confirm your password"
              else "Password confirmation does not match new password")
      && issues[|issues| - 1] == FieldError("confirmPassword", "Password confirmation does not match new password")
  {
    SchemaRuns(isEmail, f, "confirmPassword");
    var k := ConfirmIssues(f);
    var front := EmailIssues(isEmail, f) + CodeIssues(f) + PasswordIssues(f);
    assert SchemaIssues(isEmail, f) == front + k;
    assert (front + k)[|front + k| - 1] == k[|k| - 1];
  }

  /** The new password field shows only its own length message, never the mismatch. */
  lemma PasswordFieldShowsLength(isEmail: string -> bool, f: ResetInput)
    ensures FieldMessage(SchemaIssues(isEmail, f), "newPassword") ==
      if Utf16Length(f.newPassword) >= 6 then None else Some("Password must be at least 6 characters long")
  {
    SchemaRuns(isEmail, f, "newPassword");
  }

  /** A password of five characters one of which lies above U+FFFF is six code units long,
      so the form accepts it. */
  lemma AstralPasswordLongEnough(isEmail: string -> bool, f: ResetInput)
    requires f.newPassword == "abcd\U{1F600}"
    ensures FieldMessage(SchemaIssues(isEmail, f), "newPassword").None?
  {
    AstralCountsTwice();
    PasswordFieldShowsLength(isEmail, f);
  }

  /** A code of four digits and one character above U+FFFF has the right length in code units,
      so it shows the digits message rather than the length message. */
  lemma AstralCodeFailsDigits(isEmail: string -> bool, f: ResetInput)
    requires f.resetCode == "1234\U{1F600}"
    ensures FieldMessage(SchemaIssues(isEmail, f), "resetCode") == Some("Reset code must contain only numbers")
  {
    assert !IsBmp('\U{1F600}');
    Utf16LengthConcat("1234", "\U{1F600}");
    assert "1234" + "\U{1F600}" == f.resetCode;
    assert !IsDigit(f.resetCode[4]);
    ResetCodeRule(isEmail, f);
  }

  /** Every code the server sends passes the form's code rule. */
  lemma GeneratedCodesPass(isEmail: string -> bool, f: ResetInput, random: real)
    requires 0.0 <= random < 1.0
    requires f.resetCode == AuthController.ResetCode(random)
    ensures FieldMessage(SchemaIssues(isEmail, f), "resetCode").None?
  {
    AuthController.ResetCodeIsSixDigits(random);
    assert forall i :: 0 <= i < |f.resetCode| ==> IsBmp(f.resetCode[i]);
    ResetCodeRule(isEmail, f);
  }

  // ---------------------------------------------------------------------------
  // the server's answer

  /** A failed request: no response body, or a body with an optional message and an optional
      list of validation errors. */
  datatype ErrorAnswer = NoBody | ErrorBody(message: Option<string>, errors: Option<seq<FieldError>>)

  /** Where the form puts a failure: on fields, or in a toast. */
  datatype Routed = OnFields(errors: seq<FieldError>) | Toast(message: string)

  /** The expired-code answer goes to the code field, the unknown-user answer to the email
      field, a validation error list to the fields it names, and anything else to a toast. */
  function RouteError(a: ErrorAnswer): (r: Routed)
    ensures a.NoBody? ==> r == Toast("An unexpected error occurred. Please try again.")
    ensures a.ErrorBody? && a.message == Some("Invalid or expired reset code") ==>
      r == OnFields([FieldError("resetCode", "The reset code is invalid or has expired")])
    ensures a.ErrorBody? && a.message == Some("User not found") ==>
      r == OnFields([FieldError("email", "No account found with this email")])
    ensures a.ErrorBody? && a.message != Some("Invalid or expired reset code") && a.message != Some("User not found") ==>
      (a.errors.Some? ==> r == OnFields(a.errors.value)) && (a.errors.None? ==> r.Toast?)
    ensures r.Toast? ==> r.message != ""
  {
    match a
    case NoBody => Toast("An unexpected error occurred. Please try again.")
    case ErrorBody(message, errors) =>
      if message == Some("Invalid or expired reset code") then
        OnFields([FieldError("resetCode", "The reset code is invalid or has expired")])
      else if message == Some("User not found") then
        OnFields([FieldError("email", "No account found with this email")])
      else if errors.Some? then OnFields(errors.value)
      else Toast(if message.Some? && message.value != "" then message.value else "Failed to reset password")
  }

  /** The body the reset handler sends with a failure: its message, or its error list. */
  function AnswerOf(reply: Reply<()>): (a: ErrorAnswer)
    requires !reply.Success?
    ensures reply.Rejected? ==> a == ErrorBody(Some(reply.message), None)
    ensures reply.Invalid? ==> a == ErrorBody(None, Some(reply.errors))
  {
    match reply
    case Rejected(_, message) => ErrorBody(Some(message), None)
    case Invalid(errors) => ErrorBody(None, Some(errors))
    case SchemaInvalid(messages) => ErrorBody(Some("Validation error"), None)
    case Forwarded => NoBody
  }

  /** Every way the reset handler fails lands in the right place on the form: an unusable code
      on the code field, an unknown user on the email field, validation errors on their fields,
      and a server error in a toast with the server's message. */
  lemma ResetFailuresRouted(accounts: AuthController.Accounts, errors: seq<FieldError>, email: string,
                            code: string, newPassword: string, now: int)
    ensures var reply := AuthController.ResetPassword(accounts, errors, email, code, newPassword, now).reply;
      !reply.Success? ==>
        var r := RouteError(AnswerOf(reply));
        && (reply == Rejected(400, "Invalid or expired reset code") ==>
              r == OnFields([FieldError("resetCode", "The reset code is invalid or has expired")]))
        && (reply == Rejected(404, "User not found") ==>
              r == OnFields([FieldError("email", "No account found with this email")]))
        && (reply.Invalid? ==> r == OnFields(errors))
        && (reply.Rejected? && reply.status == 500 ==> r == Toast(reply.message))
  {
  }
}
