/**
 * The resource handlers other than search: create, list, read one, toggle an upvote, add a
 * comment, update the metadata, delete, and list the caller's own uploads. Each request is one
 * atomic step from a store to a reply and a new store.
 */
module ResourceController {
  import opened Wrappers
  import opened Strings
  import opened Numbers
  import opened Collections
  import opened ResourceModel
  import opened BodyFields
  import opened Replies

  /** A reply together with the store after the request. */
  datatype Step<T> = Step(reply: Reply<T>, store: Store)

  /** The `tags` field of a request body: absent or another falsy value, a string, an array of
      strings, or some other truthy value (a number, an object). */
  datatype TagsField = NoTags | TagsText(text: string) | TagsList(items: seq<string>) | OtherTags

  /** The file multer stored for the request: its public URL and MIME type. */
  datatype UploadedFile = UploadedFile(location: string, mimetype: string)

  /** The metadata fields of a create or update request body. */
  datatype ResourceBody = ResourceBody(
    title: Option<string>,
    description: Option<string>,
    subject: Option<string>,
    department: Option<string>,
    semester: NumberField,
    teacher: Option<string>,
    tags: TagsField)

  // ---------------------------------------------------------------------------
  // tags

  /** The tags a create request stores: nothing for an absent (or any falsy) field or an
      unexpected type, the comma-separated pieces of a string each trimmed (empty pieces kept),
      each element of an array trimmed. */
  function CreateTags(t: TagsField): (tags: seq<string>)
    ensures t.NoTags? || t.OtherTags? || (t.TagsText? && t.text == "") ==> tags == []
    ensures t.TagsText? && t.text != "" ==>
      |tags| == |Split(t.text, ',')| && forall i :: 0 <= i < |tags| ==> tags[i] == Trim(Split(t.text, ',')[i])
    ensures t.TagsList? ==> |tags| == |t.items| && forall i :: 0 <= i < |tags| ==> tags[i] == Trim(t.items[i])
  {
    match t
    case NoTags => []
    case OtherTags => []
    case TagsText(text) =>
      if text == "" then []
      else
        SplitTrimmedSpec(text, ',');
        SplitTrimmed(text, ',')
    case TagsList(items) => seq(|items|, i requires 0 <= i < |items| => Trim(items[i]))
  }

  /** The tags an update stores: a falsy field or an unexpected type keeps `before`, a string is
      split and trimmed like at creation, and an array replaces the tags as it is, untrimmed. */
  function UpdateTags(before: seq<string>, t: TagsField): (tags: seq<string>)
    ensures t.NoTags? || t.OtherTags? || (t.TagsText? && t.text == "") ==> tags == before
    ensures t.TagsList? ==> tags == t.items
    ensures t.TagsText? && t.text != "" ==> tags == CreateTags(t)
  {
    match t
    case NoTags => before
    case OtherTags => before
    case TagsText(text) => if text == "" then before else SplitTrimmed(text, ',')
    case TagsList(items) => items
  }

  /** A tag string typed as `a,b,c` (no blanks around the commas) parses to pieces that join
      back to exactly that string, and none of them holds a comma or surrounding blanks. */
  lemma CreateTagsRoundTrip(text: string)
    requires text != ""
    requires forall i :: 0 <= i < |Split(text, ',')| ==> IsTrimmed(Split(text, ',')[i])
    ensures var tags := CreateTags(TagsText(text));
      && Join(tags, ',') == text
      && forall i :: 0 <= i < |tags| ==> ',' !in tags[i] && IsTrimmed(tags[i])
  {
    SplitTrimmedJoin(text, ',');
    SplitTrimmedSpec(text, ',');
  }

  /** Tags stored from a list of clean tags read back, through the comma-separated form the
      client sends, as the same list. */
  lemma TagsSurviveCommaForm(items: seq<string>)
    requires |items| >= 1 && Join(items, ',') != ""
    requires forall i :: 0 <= i < |items| ==> IsTrimmed(items[i]) && ',' !in items[i]
    ensures CreateTags(TagsText(Join(items, ','))) == items
  {
    JoinSplitTrimmed(items, ',');
  }

  // ---------------------------------------------------------------------------
  // the collection as the handlers keep it

  /** Every stored document has unique id, its required fields and consistent upvotes. */
  predicate StoreValid(store: Store)
  {
    && IdsUnique(store)
    && forall i :: 0 <= i < |store| ==> HasRequiredFields(store[i]) && UpvotesConsistent(store[i])
  }

  /** The store with the document at `k` replaced. */
  function ReplaceAt(store: Store, k: nat, r: Resource): (store': Store)
    requires k < |store|
    ensures |store'| == |store| && store'[k] == r
    ensures forall i :: 0 <= i < |store| && i != k ==> store'[i] == store[i]
  {
    store[k := r]
  }

  /** Replacing a document by one with the same id, its required fields and consistent upvotes
      keeps the store valid. */
  lemma ReplaceKeepsValid(store: Store, k: nat, r: Resource)
    requires StoreValid(store) && k < |store|
    requires r.id == store[k].id && HasRequiredFields(r) && UpvotesConsistent(r)
    ensures StoreValid(ReplaceAt(store, k, r))
  {
  }

  // ---------------------------------------------------------------------------
  // createResource

  /** The message Mongoose reports for a required path left empty. */
  function RequiredMessage(path: string): string
  {
    "Path `" + path + "` is required."
  }

  /** The complaint for a semester that does not cast. Mongoose's own message also names the
      rejected value and its type; the model keeps only the part that does not depend on them. */
  const SemesterCastMessage := "Cast to Number failed at path \"semester\""

  /** The schema's complaints about a new document. A semester that does not cast is recorded
      when the document is constructed, so its complaint comes first; the required checks of
      `save()` follow in schema order: every required string that is empty, and a missing
      semester. */
  function CreateErrors(title: string, subject: string, department: string, semester: NumberCast,
                        file: UploadedFile): (errors: seq<string>)
    ensures errors == [] <==>
      title != "" && subject != "" && department != "" && semester.Cast?
      && file.location != "" && file.mimetype != ""
    ensures semester.CastFailed? ==> errors[0] == SemesterCastMessage
    ensures semester.CastFailed? ==> SemesterCastMessage !in errors[1..]
    ensures !semester.CastFailed? ==> SemesterCastMessage !in errors
  {
    (if semester.CastFailed? then [SemesterCastMessage] else [])
    + (if title == "" then [RequiredMessage("title")] else [])
    + (if subject == "" then [RequiredMessage("subject")] else [])
    + (if department == "" then [RequiredMessage("department")] else [])
    + (if semester.Missing? then [RequiredMessage("semester")] else [])
    + (if file.location == "" then [RequiredMessage("fileUrl")] else [])
    + (if file.mimetype == "" then [RequiredMessage("fileType")] else [])
  }

  /** With an empty title and a semester that does not cast, the cast complaint is listed
      before the required one. */
  lemma CastComplaintFirst(subject: string, department: string, file: UploadedFile)
    requires subject != "" && department != "" && file.location != "" && file.mimetype != ""
    ensures CreateErrors("", subject, department, CastFailed, file) == [SemesterCastMessage, RequiredMessage("title")]
  {
  }

  /** The schema's complaints about the document a create request would build. */
  function BodyErrors(body: ResourceBody, file: UploadedFile): seq<string>
  {
    CreateErrors(body.title.GetOr(""), body.subject.GetOr(""), body.department.GetOr(""),
                 CastNumber(body.semester), file)
  }

  /** `createResource`. `user` is the authenticated caller, `file` what the upload middleware
      stored, `newId` the id the store assigns and `now` the clock. Authentication is checked
      first, then the file; a document the schema refuses is not stored and the reply lists
      the complaints. */
  function CreateResource(store: Store, user: Option<UserId>, file: Option<UploadedFile>,
                          body: ResourceBody, newId: ResourceId, now: Time): (step: Step<Resource>)
    requires !Exists(store, newId)
    ensures user.None? ==> step == Step(Rejected(401, "Authentication required"), store)
    ensures user.Some? && file.None? ==> step == Step(Rejected(400, "No file uploaded"), store)
    ensures step.reply.SchemaInvalid? ==>
      step.store == store && step.reply.messages == BodyErrors(body, file.value) && step.reply.messages != []
    ensures step.reply.Success? <==> user.Some? && file.Some? && BodyErrors(body, file.value) == []
    ensures step.reply.Success? ==>
      var r := step.reply.value;
      && step.reply.status == 201
      && step.store == store + [r]
      && r.id == newId && r.uploadedBy == user.value
      && r.fileUrl == file.value.location && r.fileType == file.value.mimetype
      && body.title == Some(r.title) && body.subject == Some(r.subject)
      && body.department == Some(r.department)
      && r.description == OrElse(body.description, "") && r.teacher == OrElse(body.teacher, "")
      && r.tags == CreateTags(body.tags)
      && CastNumber(body.semester) == Cast(r.semester)
      && r.upvotes == 0 && r.upvotedBy == [] && r.comments == []
      && r.createdAt == now && r.updatedAt == now
      && HasRequiredFields(r) && UpvotesConsistent(r)
    ensures step.reply.Success? || step.reply.Rejected? || step.reply.SchemaInvalid?
  {
    if user.None? then Step(Rejected(401, "Authentication required"), store)
    else if file.None? then Step(Rejected(400, "No file uploaded"), store)
    else
      var title := body.title.GetOr("");
      var subject := body.subject.GetOr("");
      var department := body.department.GetOr("");
      var semester := CastNumber(body.semester);
      var errors := BodyErrors(body, file.value);
      if errors != [] then Step(SchemaInvalid(errors), store)
      else
        var r := NewResource(newId, title, OrElse(body.description, ""), subject, department,
                             semester.value, OrElse(body.teacher, ""), CreateTags(body.tags),
                             file.value.location, file.value.mimetype, user.value, now);
        Step(Success(201, "Resource created successfully", r), store + [r])
  }

  /** Creation keeps the store valid, and the new document is found under its id. */
  lemma CreateKeepsValid(store: Store, user: Option<UserId>, file: Option<UploadedFile>,
                         body: ResourceBody, newId: ResourceId, now: Time)
    requires StoreValid(store) && !Exists(store, newId)
    ensures var step := CreateResource(store, user, file, body, newId, now);
      && StoreValid(step.store)
      && (step.reply.Success? ==> FindIndex(step.store, newId) == |store|)
  {
    var step := CreateResource(store, user, file, body, newId, now);
    if step.reply.Success? {
      var s' := step.store;
      assert s'[|store|].id == newId;
      forall i | 0 <= i < |store| ensures s'[i].id != newId {
        assert s'[i] == store[i];
      }
    }
  }

  // ---------------------------------------------------------------------------
  // reading

  /** `getAllResources`: every document, newest first. */
  function GetAllResources(store: Store): (all: seq<Resource>)
    ensures SortedBy(CreatedAt, all) && multiset(all) == multiset(store)
  {
    SortedOn(CreatedAt, store)
  }

  /** `getResourceById`: 404 when no document has the id. */
  function GetResourceById(store: Store, id: ResourceId): (reply: Reply<Resource>)
    ensures reply.Success? || reply.Rejected?
    ensures reply.Rejected? <==> !Exists(store, id)
    ensures reply.Rejected? ==> reply.status == 404
    ensures reply.Success? ==> reply.status == 200 && reply.value in store && reply.value.id == id
  {
    var k := FindIndex(store, id);
    if k == -1 then Rejected(404, "Resource not found") else Success(200, "", store[k])
  }

  /** A created document is what a later read of its id returns. */
  lemma CreateThenGet(store: Store, user: Option<UserId>, file: Option<UploadedFile>,
                      body: ResourceBody, newId: ResourceId, now: Time)
    requires StoreValid(store) && !Exists(store, newId)
    ensures var step := CreateResource(store, user, file, body, newId, now);
      step.reply.Success? ==> GetResourceById(step.store, newId) == Success(200, "", step.reply.value)
  {
    CreateKeepsValid(store, user, file, body, newId, now);
  }

  /** `getUserResources`: the caller's own uploads, newest first; 401 without a caller. */
  function GetUserResources(store: Store, user: Option<UserId>): (reply: Reply<seq<Resource>>)
    ensures reply.Success? || reply.Rejected?
    ensures user.None? <==> reply.Rejected?
    ensures reply.Rejected? ==> reply.status == 401
    ensures reply.Success? ==>
      && reply.status == 200 && SortedBy(CreatedAt, reply.value)
      && forall r :: multiset(reply.value)[r] == if r.uploadedBy == user.value then multiset(store)[r] else 0
  {
    if user.None? then Rejected(401, "Authentication required")
    else Success(200, "", SortedOn(CreatedAt, Filter((r: Resource) => r.uploadedBy == user.value, store)))
  }

  // ---------------------------------------------------------------------------
  // upvoteResource

  /** The result of a toggle: the document after it and whether the user now upvotes it. */
  datatype Toggled = Toggled(resource: Resource, hasUpvoted: bool)

  /** The toggle: a user not among the upvoters is appended and the counter goes up by one;
      otherwise the user's first entry is removed and the counter goes down by one, never below
      zero. The save stamps `updatedAt`. */
  function ToggleUpvote(r: Resource, user: UserId, now: Time): (t: Toggled)
    ensures t.hasUpvoted <==> user !in r.upvotedBy
    ensures t.hasUpvoted ==> t.resource.upvotedBy == r.upvotedBy + [user] && t.resource.upvotes == r.upvotes + 1
    ensures !t.hasUpvoted ==>
      && multiset(t.resource.upvotedBy) == multiset(r.upvotedBy) - multiset{user}
      && t.resource.upvotes == (if r.upvotes - 1 > 0 then r.upvotes - 1 else 0)
    ensures t.resource == r.(upvotes := t.resource.upvotes, upvotedBy := t.resource.upvotedBy, updatedAt := now)
  {
    var k := IndexOf(r.upvotedBy, user);
    if k == -1 then
      Toggled(r.(upvotes := r.upvotes + 1, upvotedBy := r.upvotedBy + [user], updatedAt := now), true)
    else
      var n := if r.upvotes - 1 > 0 then r.upvotes - 1 else 0;
      Toggled(r.(upvotes := n, upvotedBy := RemoveAt(r.upvotedBy, k), updatedAt := now), false)
  }

  /** From a consistent document, the toggle keeps `upvotes == |upvotedBy|` and the upvoters
      distinct, and `hasUpvoted` tells exactly whether the user is an upvoter afterwards. */
  lemma {:induction false} ToggleKeepsConsistent(r: Resource, user: UserId, now: Time)
    requires UpvotesConsistent(r)
    ensures var t := ToggleUpvote(r, user, now);
      && UpvotesConsistent(t.resource)
      && (t.hasUpvoted <==> user in t.resource.upvotedBy)
  {
    var t := ToggleUpvote(r, user, now);
    var s: seq<UserId> := r.upvotedBy;
    var s' := t.resource.upvotedBy;
    if t.hasUpvoted {
      assert user in s';
      forall i, j | 0 <= i < j < |s'| ensures s'[i] != s'[j] {
        if j == |s| {
          assert s'[i] == s[i] && s[i] in s;
        }
      }
    } else {
      var k := IndexOf(s, user);
      assert s' == RemoveAt(s, k);
      assert |s'| == |s| - 1;
      forall i, j | 0 <= i < j < |s'| ensures s'[i] != s'[j] {
        var i0 := if i < k then i else i + 1;
        var j0 := if j < k then j else j + 1;
        assert s'[i] == s[i0] && s'[j] == s[j0] && i0 < j0;
      }
      assert multiset(s)[user] == 1 by {
        CountAtMostOne(s, user);
      }
      assert multiset(s')[user] == 0;
      assert user !in s';
    }
  }

  /** In a duplicate-free sequence every value occurs at most once. */
  lemma {:induction false} CountAtMostOne<T>(s: seq<T>, x: T)
    requires NoDup(s)
    ensures multiset(s)[x] <= 1
  {
    if multiset(s)[x] > 1 {
      CountTwoMeansDup(s, x);
    }
  }

  /** Toggling twice restores the counter and the set of upvoters; when the first toggle added
      the user, it restores the list exactly. */
  lemma ToggleTwice(r: Resource, user: UserId, now: Time, later: Time)
    requires UpvotesConsistent(r)
    ensures var t1 := ToggleUpvote(r, user, now);
      var t2 := ToggleUpvote(t1.resource, user, later);
      && t2.resource.upvotes == r.upvotes
      && multiset(t2.resource.upvotedBy) == multiset(r.upvotedBy)
      && t2.hasUpvoted == !t1.hasUpvoted
      && (t1.hasUpvoted ==> t2.resource.upvotedBy == r.upvotedBy)
  {
    if user in r.upvotedBy {
      RemoveThenAdd(r, user, now, later);
    } else {
      AddThenRemove(r, user, now, later);
    }
  }

  /** Adding the user and taking them off again gives back the same list. */
  lemma AddThenRemove(r: Resource, user: UserId, now: Time, later: Time)
    requires UpvotesConsistent(r) && user !in r.upvotedBy
    ensures var t1 := ToggleUpvote(r, user, now);
      var t2 := ToggleUpvote(t1.resource, user, later);
      && t1.hasUpvoted && !t2.hasUpvoted
      && t2.resource.upvotes == r.upvotes && t2.resource.upvotedBy == r.upvotedBy
  {
    var s: seq<UserId> := r.upvotedBy;
    var s1 := s + [user];
    assert IndexOf(s1, user) == |s|;
    assert RemoveAt(s1, |s|) == s;
  }

  /** Taking the user off and adding them again gives back the same upvoters, in another
      order. */
  lemma RemoveThenAdd(r: Resource, user: UserId, now: Time, later: Time)
    requires UpvotesConsistent(r) && user in r.upvotedBy
    ensures var t1 := ToggleUpvote(r, user, now);
      var t2 := ToggleUpvote(t1.resource, user, later);
      && !t1.hasUpvoted && t2.hasUpvoted
      && t2.resource.upvotes == r.upvotes
      && multiset(t2.resource.upvotedBy) == multiset(r.upvotedBy)
  {
    var t1 := ToggleUpvote(r, user, now);
    ToggleKeepsConsistent(r, user, now);
    var s: seq<UserId> := r.upvotedBy;
    assert multiset(s)[user] == 1 by { CountAtMostOne(s, user); }
    assert multiset(t1.resource.upvotedBy) + multiset{user} == multiset(s);
    assert |s| >= 1;
  }

  /** The reply to an upvote: the counter after the toggle and whether the caller now upvotes. */
  datatype UpvoteResult = UpvoteResult(upvotes: int, hasUpvoted: bool)

  /** `upvoteResource`: 401 without a caller, 404 for an unknown id, otherwise the toggle is
      saved and the reply reports its outcome. */
  function UpvoteResource(store: Store, user: Option<UserId>, id: ResourceId, now: Time): (step: Step<UpvoteResult>)
    ensures user.None? ==> step == Step(Rejected(401, "Authentication required"), store)
    ensures user.Some? && !Exists(store, id) ==> step == Step(Rejected(404, "Resource not found"), store)
    ensures step.reply.Success? ==>
      var k := FindIndex(store, id);
      var t := ToggleUpvote(store[k], user.value, now);
      && 0 <= k && step.store == ReplaceAt(store, k, t.resource)
      && step.reply.status == 200
      && step.reply.value == UpvoteResult(t.resource.upvotes, t.hasUpvoted)
      && step.reply.message == (if t.hasUpvoted then "Resource upvoted successfully" else "Upvote removed successfully")
    ensures step.reply.Success? <==> user.Some? && Exists(store, id)
    ensures step.reply.Success? || step.reply.Rejected?
  {
    if user.None? then Step(Rejected(401, "Authentication required"), store)
    else
      var k := FindIndex(store, id);
      if k == -1 then Step(Rejected(404, "Resource not found"), store)
      else
        var t := ToggleUpvote(store[k], user.value, now);
        var message := if t.hasUpvoted then "Resource upvoted successfully" else "Upvote removed successfully";
        Step(Success(200, message, UpvoteResult(t.resource.upvotes, t.hasUpvoted)), ReplaceAt(store, k, t.resource))
  }

  /** An upvote keeps the store valid, and on success the reply's `hasUpvoted` tells whether
      the caller is among the stored upvoters and `upvotes` is their number. */
  lemma UpvoteKeepsValid(store: Store, user: Option<UserId>, id: ResourceId, now: Time)
    requires StoreValid(store)
    ensures var step := UpvoteResource(store, user, id, now);
      && StoreValid(step.store)
      && (step.reply.Success? ==>
            var r := step.store[FindIndex(store, id)];
            && (step.reply.value.hasUpvoted <==> user.value in r.upvotedBy)
            && step.reply.value.upvotes == |r.upvotedBy|)
  {
    var step := UpvoteResource(store, user, id, now);
    if step.reply.Success? {
      var k := FindIndex(store, id);
      ToggleKeepsConsistent(store[k], user.value, now);
      ReplaceKeepsValid(store, k, ToggleUpvote(store[k], user.value, now).resource);
    }
  }

  // ---------------------------------------------------------------------------
  // addComment

  /** `addComment`: 401 without a caller, 400 for a missing or empty text (before the lookup),
      404 for an unknown id; otherwise one comment by the caller, stamped `now`, is appended and
      returned. */
  function AddComment(store: Store, user: Option<UserId>, id: ResourceId, text: Option<string>, now: Time): (step: Step<Comment>)
    ensures user.None? ==> step == Step(Rejected(401, "Authentication required"), store)
    ensures user.Some? && !Truthy(text) ==> step == Step(Rejected(400, "Comment text is required"), store)
    ensures user.Some? && Truthy(text) && !Exists(store, id) ==> step == Step(Rejected(404, "Resource not found"), store)
    ensures step.reply.Success? ==>
      var k := FindIndex(store, id);
      var c := step.reply.value;
      && 0 <= k && step.reply.status == 201
      && c == Comment(user.value, text.value, now)
      && step.store == ReplaceAt(store, k, store[k].(comments := store[k].comments + [c], updatedAt := now))
    ensures step.reply.Success? <==> user.Some? && Truthy(text) && Exists(store, id)
    ensures step.reply.Success? || step.reply.Rejected?
  {
    if user.None? then Step(Rejected(401, "Authentication required"), store)
    else if !Truthy(text) then Step(Rejected(400, "Comment text is required"), store)
    else
      var k := FindIndex(store, id);
      if k == -1 then Step(Rejected(404, "Resource not found"), store)
      else
        var c := Comment(user.value, text.value, now);
        var r := store[k].(comments := store[k].comments + [c], updatedAt := now);
        Step(Success(201, "Comment added successfully", c), ReplaceAt(store, k, r))
  }

  /** A comment only appends: the earlier comments stay as they were, in order, there is
      exactly one more, the returned comment is the last one, and the store stays valid. */
  lemma AddCommentAppends(store: Store, user: Option<UserId>, id: ResourceId, text: Option<string>, now: Time)
    requires StoreValid(store)
    ensures var step := AddComment(store, user, id, text, now);
      && StoreValid(step.store)
      && (step.reply.Success? ==>
            var k := FindIndex(store, id);
            var after := step.store[k].comments;
            && |after| == |store[k].comments| + 1
            && after[..|store[k].comments|] == store[k].comments
            && after[|after| - 1] == step.reply.value
            && step.reply.value.text != "")
  {
    var step := AddComment(store, user, id, text, now);
    if step.reply.Success? {
      var k := FindIndex(store, id);
      var r := store[k].(comments := store[k].comments + [step.reply.value], updatedAt := now);
      ReplaceKeepsValid(store, k, r);
      assert (store[k].comments + [step.reply.value])[..|store[k].comments|] == store[k].comments;
    }
  }

  // ---------------------------------------------------------------------------
  // updateResource and deleteResource

  /** The owner check shared by update and delete: 401, then 404, then 403. */
  function OwnerCheck(store: Store, user: Option<UserId>, id: ResourceId, action: string): (a: Access)
    ensures user.None? <==> a == Denied(401, "Authentication required")
    ensures a.Allowed? <==> user.Some? && Exists(store, id) && store[FindIndex(store, id)].uploadedBy == user.value
    ensures a.Allowed? ==> a.index == FindIndex(store, id)
    ensures a.Denied? && user.Some? ==> a.status == 403 || a.status == 404
    ensures a.Denied? && a.status == 404 <==> user.Some? && !Exists(store, id)
  {
    if user.None? then Denied(401, "Authentication required")
    else
      var k := FindIndex(store, id);
      if k == -1 then Denied(404, "Resource not found")
      else if store[k].uploadedBy != user.value then Denied(403, "Not authorized to " + action + " this resource")
      else Allowed(k)
  }

  /** The outcome of the owner check: the position of the caller's own document, or a refusal. */
  datatype Access = Allowed(index: nat) | Denied(status: int, message: string)

  /** The merged document of an update: every metadata field takes the new value when it is
      truthy and keeps the old one otherwise; the tags follow `UpdateTags`. */
  function Merge(r: Resource, body: ResourceBody, semester: int, now: Time): Resource
  {
    r.(title := OrElse(body.title, r.title),
       description := OrElse(body.description, r.description),
       subject := OrElse(body.subject, r.subject),
       department := OrElse(body.department, r.department),
       semester := semester,
       teacher := OrElse(body.teacher, r.teacher),
       tags := UpdateTags(r.tags, body.tags),
       updatedAt := now)
  }

  /** `updateResource`. After the owner check, a truthy semester that does not cast makes the
      store raise a cast error, which goes to the error middleware. */
  function UpdateResource(store: Store, user: Option<UserId>, id: ResourceId, body: ResourceBody, now: Time): (step: Step<Resource>)
    ensures step.reply.Rejected? || step.reply.Forwarded? ==> step.store == store
    ensures step.reply.Rejected? <==> OwnerCheck(store, user, id, "update").Denied?
    ensures step.reply.Success? ==>
      var k := FindIndex(store, id);
      var before := store[k];
      var r := step.reply.value;
      && 0 <= k && step.reply.status == 200 && step.store == ReplaceAt(store, k, r)
      && (Truthy(body.title) ==> r.title == body.title.value) && (!Truthy(body.title) ==> r.title == before.title)
      && (Truthy(body.description) ==> r.description == body.description.value)
      && (!Truthy(body.description) ==> r.description == before.description)
      && (Truthy(body.subject) ==> r.subject == body.subject.value) && (!Truthy(body.subject) ==> r.subject == before.subject)
      && (Truthy(body.department) ==> r.department == body.department.value)
      && (!Truthy(body.department) ==> r.department == before.department)
      && (Truthy(body.teacher) ==> r.teacher == body.teacher.value) && (!Truthy(body.teacher) ==> r.teacher == before.teacher)
      && (NumberTruthy(body.semester) ==> CastNumber(body.semester) == Cast(r.semester))
      && (!NumberTruthy(body.semester) ==> r.semester == before.semester)
      && r.tags == UpdateTags(before.tags, body.tags)
      && r.id == before.id && r.fileUrl == before.fileUrl && r.fileType == before.fileType
      && r.uploadedBy == before.uploadedBy && r.upvotes == before.upvotes && r.upvotedBy == before.upvotedBy
      && r.comments == before.comments && r.createdAt == before.createdAt && r.updatedAt == now
    ensures step.reply.Forwarded? <==>
      OwnerCheck(store, user, id, "update").Allowed? && NumberTruthy(body.semester) && CastNumber(body.semester).CastFailed?
    ensures step.reply.Success? || step.reply.Rejected? || step.reply.Forwarded?
  {
    match OwnerCheck(store, user, id, "update")
    case Denied(status, message) => Step(Rejected(status, message), store)
    case Allowed(k) =>
      var before := store[k];
      if NumberTruthy(body.semester) && CastNumber(body.semester).CastFailed? then Step(Forwarded, store)
      else
        var semester := if NumberTruthy(body.semester) then CastNumber(body.semester).value else before.semester;
        var r := Merge(before, body, semester, now);
        Step(Success(200, "Resource updated successfully", r), ReplaceAt(store, k, r))
  }

  /** An update never empties a required field nor touches the upvotes, so the store stays
      valid; and an update with an empty body changes nothing but `updatedAt`. */
  lemma UpdateKeepsValid(store: Store, user: Option<UserId>, id: ResourceId, body: ResourceBody, now: Time)
    requires StoreValid(store)
    ensures var step := UpdateResource(store, user, id, body, now);
      && StoreValid(step.store)
      && (body == ResourceBody(None, None, None, None, NoNumber, None, NoTags) && step.reply.Success? ==>
            step.reply.value == store[FindIndex(store, id)].(updatedAt := now))
  {
    var step := UpdateResource(store, user, id, body, now);
    if step.reply.Success? {
      var k := FindIndex(store, id);
      ReplaceKeepsValid(store, k, step.reply.value);
    }
  }

  /** `deleteResource`: after the owner check the document is removed and nothing else. */
  function DeleteResource(store: Store, user: Option<UserId>, id: ResourceId): (step: Step<()>)
    ensures step.reply.Rejected? ==> step.store == store
    ensures step.reply.Rejected? <==> OwnerCheck(store, user, id, "delete").Denied?
    ensures step.reply.Success? ==>
      var k := FindIndex(store, id);
      && 0 <= k && step.reply.status == 200 && step.store == RemoveAt(store, k)
    ensures step.reply.Success? || step.reply.Rejected?
  {
    match OwnerCheck(store, user, id, "delete")
    case Denied(status, message) => Step(Rejected(status, message), store)
    case Allowed(k) => Step(Success(200, "Resource deleted successfully", ()), RemoveAt(store, k))
  }

  /** After a delete by the owner no document carries the id, every other document is still
      there, and the store stays valid. */
  lemma DeleteRemovesOnlyTarget(store: Store, user: Option<UserId>, id: ResourceId)
    requires StoreValid(store)
    ensures var step := DeleteResource(store, user, id);
      && StoreValid(step.store)
      && (step.reply.Success? ==>
            && !Exists(step.store, id)
            && forall r :: r in store && r.id != id ==> r in step.store)
  {
    var step := DeleteResource(store, user, id);
    if step.reply.Success? {
      var k := FindIndex(store, id);
      RemoveAtKeepsValid(store, k);
      RemoveAtDropsOnly(store, k);
    }
  }

  /** Removing one document keeps the store valid. */
  lemma RemoveAtKeepsValid(store: Store, k: nat)
    requires StoreValid(store) && k < |store|
    ensures StoreValid(RemoveAt(store, k))
  {
    var s' := RemoveAt(store, k);
    forall i, j | 0 <= i < j < |s'| ensures s'[i].id != s'[j].id {
      var i0 := if i < k then i else i + 1;
      var j0 := if j < k then j else j + 1;
      assert s'[i] == store[i0] && s'[j] == store[j0] && i0 < j0;
    }
    forall i | 0 <= i < |s'| ensures HasRequiredFields(s'[i]) && UpvotesConsistent(s'[i]) {
      var i0 := if i < k then i else i + 1;
      assert s'[i] == store[i0];
    }
  }

  /** Removing the document at `k` from a store with unique ids removes its id and keeps every
      document with another id. */
  lemma RemoveAtDropsOnly(store: Store, k: nat)
    requires IdsUnique(store) && k < |store|
    ensures forall i :: 0 <= i < |RemoveAt(store, k)| ==> RemoveAt(store, k)[i].id != store[k].id
    ensures forall r :: r in store && r.id != store[k].id ==> r in RemoveAt(store, k)
  {
    var s' := RemoveAt(store, k);
    forall i | 0 <= i < |s'| ensures s'[i].id != store[k].id {
      var i0 := if i < k then i else i + 1;
      assert s'[i] == store[i0] && i0 != k;
    }
    forall r | r in store && r.id != store[k].id ensures r in s' {
      var i :| 0 <= i < |store| && store[i] == r;
      assert i != k;
      if i < k { assert s'[i] == r; } else { assert s'[i - 1] == r; }
    }
  }
}
