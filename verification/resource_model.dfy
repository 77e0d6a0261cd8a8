/**
 * The resource document: a shared study file with its metadata, owner, upvote bookkeeping and
 * embedded comments, and the collection that holds the documents in insertion order.
 */
module ResourceModel {
  import opened Collections

  /** Opaque document identifiers (MongoDB ObjectIds). A route's `:id` is taken to be well formed:
      the text that fails the ObjectId cast has no value here. */
  type UserId = nat
  type ResourceId = nat

  /** Milliseconds since the epoch. */
  type Time = int

  /** An embedded comment; `createdAt` defaults to the time the comment was added. */
  datatype Comment = Comment(user: UserId, text: string, createdAt: Time)

  /**
   * A stored resource. `description` and `teacher` are optional in the schema; the model keeps
   * an absent value as "" (creation writes "" for them, and no non-empty search pattern
   * matches either an absent field or "").
   */
  datatype Resource = Resource(
    id: ResourceId,
    title: string,
    description: string,
    subject: string,
    department: string,
    semester: int,
    teacher: string,
    tags: seq<string>,
    fileUrl: string,
    fileType: string,
    uploadedBy: UserId,
    upvotes: int,
    upvotedBy: seq<UserId>,
    comments: seq<Comment>,
    createdAt: Time,
    updatedAt: Time)

  /** The schema's `required: true` string fields are present; a required string validator
      refuses the empty string. */
  predicate HasRequiredFields(r: Resource)
  {
    r.title != "" && r.subject != "" && r.department != "" && r.fileUrl != "" && r.fileType != ""
  }

  /** The upvote bookkeeping the toggle maintains: one entry per upvoter, and the counter equals
      the number of upvoters. */
  predicate UpvotesConsistent(r: Resource)
  {
    r.upvotes == |r.upvotedBy| && NoDup(r.upvotedBy)
  }

  /** A freshly saved document: the schema defaults (`upvotes: 0`, empty `upvotedBy` and
      `comments`) and both timestamps set to the creation time. */
  function NewResource(
    id: ResourceId, title: string, description: string, subject: string, department: string,
    semester: int, teacher: string, tags: seq<string>, fileUrl: string, fileType: string,
    owner: UserId, now: Time): (r: Resource)
    ensures UpvotesConsistent(r)
  {
    Resource(id, title, description, subject, department, semester, teacher, tags, fileUrl,
             fileType, owner, 0, [], [], now, now)
  }

  // ---------------------------------------------------------------------------
  // the collection

  /** The resource collection in insertion (natural) order. */
  type Store = seq<Resource>

  /** Document ids are unique in the collection. */
  predicate IdsUnique(store: Store)
  {
    forall i, j :: 0 <= i < j < |store| ==> store[i].id != store[j].id
  }

  /** `findById`: the position of the document with id `id`, or -1. */
  function FindIndex(store: Store, id: ResourceId): int
  {
    FindFirst((r: Resource) => r.id, store, id)
  }

  /** `id` names a document in the collection. */
  predicate Exists(store: Store, id: ResourceId)
  {
    exists i :: 0 <= i < |store| && store[i].id == id
  }

  // ---------------------------------------------------------------------------
  // sort keys

  /** The document fields the program sorts on, always in descending order. */
  datatype SortField = CreatedAt | Upvotes | CommentCount

  /** The numeric sort key of a resource for a field. */
  function SortKey(f: SortField, r: Resource): int
  {
    match f
    case CreatedAt => r.createdAt
    case Upvotes => r.upvotes
    case CommentCount => |r.comments|
  }

  /** `s` is in non-increasing order of the key of `f`. */
  predicate SortedBy(f: SortField, s: seq<Resource>)
  {
    forall i, j :: 0 <= i < j < |s| ==> SortKey(f, s[i]) >= SortKey(f, s[j])
  }

  /** The resources sorted on `f`, largest first. */
  function SortedOn(f: SortField, s: seq<Resource>): (r: seq<Resource>)
    ensures SortedBy(f, r)
    ensures multiset(r) == multiset(s)
  {
    var r := SortDesc((x: Resource) => SortKey(f, x), s);
    assert SortedDesc((x: Resource) => SortKey(f, x), r);
    r
  }

  /** A window of a sorted sequence is sorted. */
  lemma WindowSortedBy(f: SortField, s: seq<Resource>, start: nat, count: nat)
    requires SortedBy(f, s)
    ensures SortedBy(f, Window(s, start, count))
  {
    var r := Window(s, start, count);
    forall i, j | 0 <= i < j < |r| ensures SortKey(f, r[i]) >= SortKey(f, r[j]) {
      assert r[i] == s[start + i] && r[j] == s[start + j];
    }
  }
}
