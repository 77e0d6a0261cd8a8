/**
 * The client's upload hook: the file check before submission, the required-field check, the
 * multipart form it assembles, and how the server's answer ends up in the hook's state.
 */
module UploadClient {
  import opened Wrappers
  import opened Numbers
  import opened Uploader

  /** A file the user picked: its size in bytes and its MIME type. */
  datatype PickedFile = PickedFile(size: nat, mimeType: string)

  /** The client's size limit: 15 MiB. */
  const ClientMaxSize := 15 * 1024 * 1024

  const Xls := "application/vnd.ms-excel"
  const Xlsx := "application/vnd.openxmlformats-officedocument.spreadsheetml.sheet"
  const Jpeg := "image/jpeg"
  const Png := "image/png"

  /** The MIME types the client lets through: the server's five, spreadsheets and two image
      formats. */
  const ClientAllowedTypes: seq<string> := [Pdf, Docx, Pptx, Doc, Ppt, Xls, Xlsx, Jpeg, Png]

  /** `validateFile`: no file, then a file over 15 MiB, then a type outside the list; the first
      failing check gives the message, `None` means the file passes. */
  function ValidateFile(file: Option<PickedFile>): (error: Option<string>)
    ensures file.None? ==> error == Some("Please select a file to upload")
    ensures file.Some? && file.value.size > 15728640 ==> error == Some("File size exceeds 15MB limit")
    ensures file.Some? && file.value.size <= 15728640 && file.value.mimeType !in ClientAllowedTypes ==>
      error == Some("Invalid file type. Allowed: PDF, DOCX, PPTX, XLSX, JPG, PNG")
    ensures error.None? <==> file.Some? && file.value.size <= 15728640 && file.value.mimeType in ClientAllowedTypes
  {
    if file.None? then Some("Please select a file to upload")
    else if file.value.size > ClientMaxSize then Some("File size exceeds 15MB limit")
    else if file.value.mimeType !in ClientAllowedTypes then
      Some("Invalid file type. Allowed: PDF, DOCX, PPTX, XLSX, JPG, PNG")
    else None
  }

  /** Every file the server would store passes the client's check: the server's types are
      among the client's and its size limit is lower. */
  lemma ServerAcceptedPassesClient(file: PickedFile)
    requires FileFilter(file.mimeType).Accept? && file.size <= MaxFileSize
    ensures ValidateFile(Some(file)).None?
  {
    assert ClientAllowedTypes[..5] == AllowedFileTypes;
    assert file.mimeType in ClientAllowedTypes[..5];
  }

  /** The server's list is a strict subset of the client's: spreadsheets and images pass the
      client but the server refuses them. */
  lemma ServerTypesStrictSubset()
    ensures forall t :: t in AllowedFileTypes ==> t in ClientAllowedTypes
    ensures forall t :: t in [Xls, Xlsx, Jpeg, Png] ==> t in ClientAllowedTypes && FileFilter(t).Refuse?
  {
    assert ClientAllowedTypes[..5] == AllowedFileTypes;
    forall t | t in [Xls, Xlsx, Jpeg, Png] ensures FileFilter(t).Refuse? {
      assert t != Pdf && t != Docx && t != Pptx && t != Doc && t != Ppt by {
        assert |Pdf| == 15 && |Doc| == 18 && |Ppt| == 29 && |Docx| == 71 && |Pptx| == 73;
        assert |Xls| == 24 && |Xlsx| == 65 && |Jpeg| == 10 && |Png| == 9;
      }
    }
  }

  // ---------------------------------------------------------------------------
  // the upload

  /** The form the user filled: `semester` is `None` when undefined or null, `NaN` when not
      a number. */
  datatype UploadForm = UploadForm(
    title: string,
    description: string,
    subject: string,
    department: string,
    semester: Option<Num>,
    teacher: Option<string>,
    tags: Option<string>,
    file: Option<PickedFile>)

  /** One part of the multipart body. */
  datatype Part = Field(name: string, value: string) | FilePart(file: PickedFile)

  /** The pre-submission check on the text fields: title, subject and department non-empty and
      a semester that is a number. */
  predicate FieldsFilled(form: UploadForm)
  {
    form.title != "" && form.subject != "" && form.department != ""
    && form.semester.Some? && form.semester.value.Int?
  }

  /** `semester ? semester.toString() : ''`. */
  function SemesterText(s: Option<Num>): string
  {
    if s.Some? && s.value.Truthy() then IntToDecimal(s.value.v) else ""
  }

  /** The multipart body: the five metadata fields always, teacher and tags only when
      non-empty, then the file. */
  function FormParts(form: UploadForm): (parts: seq<Part>)
    requires form.file.Some?
    ensures |parts| >= 6
    ensures parts[..5] == [Field("title", form.title), Field("description", form.description),
                           Field("subject", form.subject), Field("department", form.department),
                           Field("semester", SemesterText(form.semester))]
    ensures parts[|parts| - 1] == FilePart(form.file.value)
    ensures Field("teacher", form.teacher.GetOr("")) in parts <==> form.teacher.Some? && form.teacher.value != ""
    ensures Field("tags", form.tags.GetOr("")) in parts <==> form.tags.Some? && form.tags.value != ""
    ensures |parts| == 6 + (if form.teacher.Some? && form.teacher.value != "" then 1 else 0)
                         + (if form.tags.Some? && form.tags.value != "" then 1 else 0)
  {
    var base := [Field("title", form.title), Field("description", form.description),
                 Field("subject", form.subject), Field("department", form.department),
                 Field("semester", SemesterText(form.semester))];
    var teacher := if form.teacher.Some? && form.teacher.value != "" then [Field("teacher", form.teacher.value)] else [];
    var tags := if form.tags.Some? && form.tags.value != "" then [Field("tags", form.tags.value)] else [];
    base + teacher + tags + [FilePart(form.file.value)]
  }

  /** The server's answer to the upload request. */
  datatype ServerAnswer =
    | Created
    | FieldErrors(messages: seq<string>)
    | Failed(message: Option<string>)

  /** The hook after one `uploadResource` call: its result, the error it shows, the toasts it
      raised, whether it is loading, whether it navigated, and the request it sent, if any. */
  datatype UploadRun = UploadRun(
    result: bool, error: Option<string>, toasts: seq<string>, loading: bool,
    navigated: bool, sent: Option<seq<Part>>)

  /** A field error's toast: its message, or 'Validation error' when empty. */
  function ErrorToast(msg: string): (t: string)
    ensures t != ""
  {
    if msg != "" then msg else "Validation error"
  }

  /**
   * `uploadResource`: the file check, then the field check, each failing without a request;
   * otherwise the form is sent and the server's answer decides. Loading is off again on every
   * path.
   */
  function UploadResource(form: UploadForm, answer: ServerAnswer): (run: UploadRun)
    ensures !run.loading
    ensures run.result <==> ValidateFile(form.file).None? && FieldsFilled(form) && answer.Created?
    ensures ValidateFile(form.file).Some? ==>
      run == UploadRun(false, ValidateFile(form.file), [], false, false, None)
    ensures ValidateFile(form.file).None? && !FieldsFilled(form) ==>
      run == UploadRun(false, Some("Please fill in all required fields correctly"), [], false, false, None)
    ensures run.sent.Some? <==> ValidateFile(form.file).None? && FieldsFilled(form)
    ensures run.sent.Some? ==> run.sent.value == FormParts(form)
    ensures run.navigated <==> run.result
    ensures run.result ==> run.error.None? && run.toasts == ["Resource uploaded successfully!"]
    ensures run.sent.Some? && answer.FieldErrors? ==>
      run.error == Some("Please fix the validation errors") && |run.toasts| == |answer.messages|
      && forall i :: 0 <= i < |run.toasts| ==> run.toasts[i] == ErrorToast(answer.messages[i])
    ensures run.sent.Some? && answer.Failed? ==>
      var shown := if answer.message.Some? && answer.message.value != "" then answer.message.value
                   else "Failed to upload resource";
      run.error == Some(shown) && run.toasts == [shown]
  {
    var fileError := ValidateFile(form.file);
    if fileError.Some? then UploadRun(false, fileError, [], false, false, None)
    else if !FieldsFilled(form) then
      UploadRun(false, Some("Please fill in all required fields correctly"), [], false, false, None)
    else
      var parts := FormParts(form);
      match answer
      case Created => UploadRun(true, None, ["Resource uploaded successfully!"], false, true, Some(parts))
      case FieldErrors(messages) =>
        UploadRun(false, Some("Please fix the validation errors"),
                  seq(|messages|, i requires 0 <= i < |messages| => ErrorToast(messages[i])),
                  false, false, Some(parts))
      case Failed(message) =>
        var shown := if message.Some? && message.value != "" then message.value else "Failed to upload resource";
        UploadRun(false, Some(shown), [shown], false, false, Some(parts))
  }

  /** A form that passes both checks sends a semester the server's `Number` cast reads back as
      the entered number, unless that number is 0, which is sent as the empty string. */
  lemma SentSemesterReadsBack(form: UploadForm, answer: ServerAnswer)
    requires UploadResource(form, answer).sent.Some?
    ensures var n := form.semester.value.v;
      n != 0 ==> NumberOf(FormParts(form)[4].value) == Int(n)
    ensures form.semester.value.v == 0 ==> FormParts(form)[4].value == ""
  {
    NumberOfRoundTrip(form.semester.value.v);
  }
}
