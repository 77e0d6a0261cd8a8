/**
 * `searchResources`: the public `GET /resources/search` handler. It turns optional query
 * parameters into a store query (filters combined with AND, the free-text filter an OR over four
 * fields), picks a sort field, and returns one page of the sorted matches together with
 * `{total, page, limit, pages}`.
 */
module Search {
  import opened Wrappers
  import opened Strings
  import opened Numbers
  import opened Collections
  import opened ResourceModel

  /** The `tags` parameter: one comma-separated string, or an array (a repeated parameter). */
  datatype TagsParam = TagText(text: string) | TagArray(items: seq<string>)

  /** The query-string parameters. Absent parameters are `None`; `semester` is still text (the
      handler converts it with `Number`), `page` and `limit` are the values `parseInt` read. */
  datatype SearchParams = SearchParams(
    searchText: Option<string>,
    subject: Option<string>,
    department: Option<string>,
    semester: Option<string>,
    teacher: Option<string>,
    tags: Option<TagsParam>,
    fileType: Option<string>,
    uploadedBy: Option<UserId>,
    sortBy: Option<string>,
    limit: Option<int>,
    page: Option<int>)

  /** The request with no parameters at all. */
  const NoParams := SearchParams(None, None, None, None, None, None, None, None, None, None, None)

  /** JavaScript truthiness of an optional string parameter. */
  predicate Given(p: Option<string>)
  {
    p.Some? && p.value != ""
  }

  /** The default sort, page size and page number applied by the destructuring defaults. */
  const DefaultSortBy := "recent"
  const DefaultLimit := 20
  const DefaultPage := 1

  function SortByOf(p: SearchParams): string { p.sortBy.GetOr(DefaultSortBy) }
  function LimitOf(p: SearchParams): int { p.limit.GetOr(DefaultLimit) }
  function PageOf(p: SearchParams): int { p.page.GetOr(DefaultPage) }

  /** Page and page size are positive (non-numeric values, which `parseInt` turns into NaN, are
      outside the model). */
  predicate ValidPaging(p: SearchParams)
  {
    PageOf(p) >= 1 && LimitOf(p) >= 1
  }

  // ---------------------------------------------------------------------------
  // the query object

  /** A tags parameter is truthy unless it is the empty string (an array always is). */
  predicate TagsGiven(t: Option<TagsParam>)
  {
    t.Some? && (t.value.TagArray? || t.value.text != "")
  }

  /** The tag list handed to `$in`: an array as it is, a string split on ',' with every piece
      trimmed. */
  function TagValues(t: TagsParam): seq<string>
  {
    match t
    case TagArray(items) => items
    case TagText(text) => SplitTrimmed(text, ',')
  }

  /** The query document built by the handler: one entry per truthy parameter. Each pattern
      field stands for `{$regex: pattern, $options: 'i'}`; `anyText` stands for the `$or` over
      title, description, subject and teacher. */
  datatype Query = Query(
    anyText: Option<string>,
    subject: Option<string>,
    department: Option<string>,
    semester: Option<Num>,
    teacher: Option<string>,
    uploadedBy: Option<UserId>,
    fileType: Option<string>,
    tagsIn: Option<seq<string>>)

  function IfGiven(p: Option<string>): Option<string>
  {
    if Given(p) then p else None
  }

  /** Builds the query document from the parameters. */
  function BuildQuery(p: SearchParams): Query
  {
    Query(
      IfGiven(p.searchText),
      IfGiven(p.subject),
      IfGiven(p.department),
      if Given(p.semester) then Some(NumberOf(p.semester.value)) else None,
      IfGiven(p.teacher),
      p.uploadedBy,
      IfGiven(p.fileType),
      if TagsGiven(p.tags) then Some(TagValues(p.tags.value)) else None)
  }

  /** A `$regex` with option `i` on a field; an absent condition holds of every document. */
  predicate PatternHolds(cond: Option<string>, field: string)
  {
    cond.None? || ContainsCI(field, cond.value)
  }

  /** Whether the store accepts the query document: it casts `{semester: Number(x)}` to a
      number and rejects NaN with a cast error before reading anything. */
  predicate QueryCasts(q: Query)
  {
    q.semester.None? || q.semester.value.Int?
  }

  /** A truthy `semester` parameter that `Number` reads as NaN, such as `abc`. */
  predicate SemesterUncastable(p: SearchParams)
  {
    Given(p.semester) && NumberOf(p.semester.value).NaN?
  }

  /** How the store evaluates a query document it accepted against one resource: every entry
      must hold. `{semester: n}` is an equality; `{tags: {$in: L}}` holds when some tag of the
      resource is in `L`. */
  predicate QueryHolds(q: Query, r: Resource)
  {
    && (q.anyText.None?
        || ContainsCI(r.title, q.anyText.value) || ContainsCI(r.description, q.anyText.value)
        || ContainsCI(r.subject, q.anyText.value) || ContainsCI(r.teacher, q.anyText.value))
    && PatternHolds(q.subject, r.subject)
    && PatternHolds(q.department, r.department)
    && (q.semester.None? || q.semester.value == Int(r.semester))
    && PatternHolds(q.teacher, r.teacher)
    && (q.uploadedBy.None? || q.uploadedBy.value == r.uploadedBy)
    && PatternHolds(q.fileType, r.fileType)
    && (q.tagsIn.None? || exists i :: 0 <= i < |r.tags| && r.tags[i] in q.tagsIn.value)
  }

  /** The search contract stated filter by filter, on the parameters: every supplied filter
      holds, and an omitted (or empty) parameter constrains nothing. */
  predicate Matches(p: SearchParams, r: Resource)
  {
    && (Given(p.searchText) ==>
          || ContainsCI(r.title, p.searchText.value) || ContainsCI(r.description, p.searchText.value)
          || ContainsCI(r.subject, p.searchText.value) || ContainsCI(r.teacher, p.searchText.value))
    && (Given(p.subject) ==> ContainsCI(r.subject, p.subject.value))
    && (Given(p.department) ==> ContainsCI(r.department, p.department.value))
    && (Given(p.semester) ==> NumberOf(p.semester.value) == Int(r.semester))
    && (Given(p.teacher) ==> ContainsCI(r.teacher, p.teacher.value))
    && (p.uploadedBy.Some? ==> r.uploadedBy == p.uploadedBy.value)
    && (Given(p.fileType) ==> ContainsCI(r.fileType, p.fileType.value))
    && (TagsGiven(p.tags) ==> exists i :: 0 <= i < |r.tags| && r.tags[i] in TagValues(p.tags.value))
  }

  /** The query document the handler builds selects exactly the resources the per-filter
      contract admits. */
  lemma BuildQueryMeansMatches(p: SearchParams, r: Resource)
    ensures QueryHolds(BuildQuery(p), r) <==> Matches(p, r)
  {
  }

  /** With no parameters every resource matches. */
  lemma NoParamsMatchAll(r: Resource)
    ensures Matches(NoParams, r)
  {
  }

  // ---------------------------------------------------------------------------
  // sorting and paging

  /** `'upvotes'` sorts on the counter, `'comments'` on the number of comments, and every other
      value, `'recent'` and unknown ones included, on the creation time. */
  function SortFieldOf(sortBy: string): (f: SortField)
    ensures f == Upvotes <==> sortBy == "upvotes"
    ensures f == CommentCount <==> sortBy == "comments"
  {
    if sortBy == "upvotes" then Upvotes
    else if sortBy == "comments" then CommentCount
    else CreatedAt
  }

  /** `Math.ceil(total / limit)` for a positive limit. */
  function CeilDiv(total: nat, limit: nat): (pages: nat)
    requires limit >= 1
    ensures total == 0 ==> pages == 0
    ensures total > 0 ==> (pages - 1) * limit < total <= pages * limit
  {
    (total + limit - 1) / limit
  }

  /** All resources the query document selects, in the store's natural order. */
  function MatchesOf(p: SearchParams, docs: seq<Resource>): seq<Resource>
  {
    Filter((r: Resource) => QueryHolds(BuildQuery(p), r), docs)
  }

  /** The selected resources are the stored ones that match, each with all its stored copies. */
  lemma MatchesOfSpec(p: SearchParams, docs: seq<Resource>)
    ensures forall r :: r in MatchesOf(p, docs) <==> r in docs && Matches(p, r)
    ensures forall r :: multiset(MatchesOf(p, docs))[r] == if Matches(p, r) then multiset(docs)[r] else 0
  {
    forall r ensures QueryHolds(BuildQuery(p), r) <==> Matches(p, r) {
      BuildQueryMeansMatches(p, r);
    }
  }

  /** All matching resources in result order. */
  function Ordered(p: SearchParams, docs: seq<Resource>): seq<Resource>
  {
    SortedOn(SortFieldOf(SortByOf(p)), MatchesOf(p, docs))
  }

  datatype Pagination = Pagination(total: nat, page: int, limit: int, pages: nat)

  /** What the store returned: the documents, or a failure. */
  datatype StoreRead = Available(docs: seq<Resource>) | Unavailable

  /** The handler's outcome: a 200 response, or the store's error passed to `next`. */
  datatype SearchReply =
    | Found(resources: seq<Resource>, pagination: Pagination)
    | ForwardedError

  /** The number of results before page `page`: `(page - 1) * limit`. */
  function Skip(page: int, limit: int): nat
    requires page >= 1 && limit >= 1
  {
    (page - 1) * limit
  }

  lemma SkipStep(page: int, limit: int)
    requires page >= 1 && limit >= 1
    ensures Skip(page + 1, limit) == Skip(page, limit) + limit
  {
  }

  function SkipOf(p: SearchParams): nat
    requires ValidPaging(p)
  {
    Skip(PageOf(p), LimitOf(p))
  }

  /** The page the search returns: the window `[skip, skip + limit)` of the sorted matches. */
  function PageOfResults(p: SearchParams, docs: seq<Resource>): seq<Resource>
    requires ValidPaging(p)
  {
    Window(Ordered(p, docs), SkipOf(p), LimitOf(p))
  }

  /** The 200 reply to a search the store answered: the window `[skip, skip + limit)` of the
      fully sorted matches, with the pagination block. For `'comments'` the handler fetches
      every match, sorts in memory and slices; for the other keys the store sorts, skips and
      limits. Both compute this window once equal keys come in one fixed order; the model
      gives every request the same such order, which the store itself does not promise. */
  function Results(p: SearchParams, docs: seq<Resource>): (reply: SearchReply)
    requires ValidPaging(p)
    ensures reply.Found?
    ensures reply.pagination.page == PageOf(p) && reply.pagination.limit == LimitOf(p)
    ensures reply.pagination.total == |MatchesOf(p, docs)|
    ensures reply.pagination.pages == CeilDiv(reply.pagination.total, LimitOf(p))
  {
    var total := |MatchesOf(p, docs)|;
    Found(PageOfResults(p, docs), Pagination(total, PageOf(p), LimitOf(p), CeilDiv(total, LimitOf(p))))
  }

  /** `searchResources`: a store failure, and a query the store refuses to cast, go to the error
      middleware through `next`; otherwise the reply is `Results`. */
  function SearchResources(read: StoreRead, p: SearchParams): (reply: SearchReply)
    requires ValidPaging(p)
    ensures reply.ForwardedError? <==> read.Unavailable? || SemesterUncastable(p)
    ensures reply.Found? ==> reply == Results(p, read.docs)
  {
    match read
    case Unavailable => ForwardedError
    case Available(docs) =>
      if !QueryCasts(BuildQuery(p)) then ForwardedError else Results(p, docs)
  }

  /** A non-numeric semester, such as `?semester=abc`, is never answered with an empty page:
      the store's cast error is forwarded. */
  lemma NonNumericSemesterForwarded(read: StoreRead, p: SearchParams)
    requires ValidPaging(p) && p.semester == Some("abc")
    ensures SearchResources(read, p) == ForwardedError
  {
    assert IsTrimmed("abc") by {
      assert !IsSpace('a') && !IsSpace('c');
    }
    LetterReadsNaN("abc");
  }

  /** Every returned resource is a stored resource satisfying every supplied filter, and the
      page is in result order. */
  lemma SearchResultsMatch(docs: seq<Resource>, p: SearchParams)
    requires ValidPaging(p)
    ensures var reply := Results(p, docs);
      && (forall r :: r in reply.resources ==> r in docs && Matches(p, r))
      && SortedBy(SortFieldOf(SortByOf(p)), reply.resources)
  {
    var all := Ordered(p, docs);
    var window := PageOfResults(p, docs);
    PermutationMembers(all, MatchesOf(p, docs));
    MatchesOfSpec(p, docs);
    WindowSortedBy(SortFieldOf(SortByOf(p)), all, SkipOf(p), LimitOf(p));
    forall r | r in window ensures r in docs && Matches(p, r) {
      var i :| 0 <= i < |window| && window[i] == r;
      assert all[SkipOf(p) + i] == r;
    }
  }

  /** A page holds at most `limit` resources; it is full while at least `limit` matches remain
      from `skip` on, holds the remainder otherwise, and is empty once `skip` reaches `total`. */
  lemma SearchPageBounds(docs: seq<Resource>, p: SearchParams)
    requires ValidPaging(p)
    ensures var reply := Results(p, docs);
      var total := reply.pagination.total;
      var skip := SkipOf(p);
      var limit := LimitOf(p);
      var n := |reply.resources|;
      && n <= limit
      && (skip >= total ==> n == 0)
      && (skip < total ==> n == if skip + limit <= total then limit else total - skip)
  {
    PermutationMembers(Ordered(p, docs), MatchesOf(p, docs));
  }

  /** Two requests that differ at most in sort, page and page size. */
  predicate SameFilters(p: SearchParams, p': SearchParams)
  {
    p'.(sortBy := p.sortBy, limit := p.limit, page := p.page) == p
  }

  lemma SameFiltersSameMatches(docs: seq<Resource>, p: SearchParams, p': SearchParams)
    requires SameFilters(p, p')
    ensures MatchesOf(p, docs) == MatchesOf(p', docs)
  {
    assert BuildQuery(p) == BuildQuery(p');
  }

  /** `total` counts every stored copy of every matching resource, whatever the page, the page
      size or the sort. */
  lemma TotalIgnoresPaging(docs: seq<Resource>, p: SearchParams, p': SearchParams)
    requires ValidPaging(p) && ValidPaging(p')
    requires SameFilters(p, p')
    ensures Results(p, docs).pagination.total
         == Results(p', docs).pagination.total
  {
    SameFiltersSameMatches(docs, p, p');
  }

  /** With no parameters the search counts the whole collection. */
  lemma NoParamsCountsAll(docs: seq<Resource>)
    ensures Results(NoParams, docs).pagination.total == |docs|
  {
    var m := MatchesOf(NoParams, docs);
    MatchesOfSpec(NoParams, docs);
    assert multiset(m) == multiset(docs) by {
      forall r ensures multiset(m)[r] == multiset(docs)[r] {
        NoParamsMatchAll(r);
      }
    }
    assert |m| == |multiset(m)| == |multiset(docs)| == |docs|;
  }

  /** The page of a search is the window `[skip, skip + limit)` of the fully sorted matches. */
  lemma SearchIsWindowOfSortedMatches(docs: seq<Resource>, p: SearchParams)
    requires ValidPaging(p)
    ensures var reply := Results(p, docs);
      var all := Ordered(p, docs);
      && SortedBy(SortFieldOf(SortByOf(p)), all)
      && (forall r :: multiset(all)[r] == if Matches(p, r) then multiset(docs)[r] else 0)
      && reply.pagination.total == |all|
      && (forall i :: 0 <= i < |reply.resources| ==> reply.resources[i] == all[SkipOf(p) + i])
  {
    MatchesOfSpec(p, docs);
    PermutationMembers(Ordered(p, docs), MatchesOf(p, docs));
  }

  // ---------------------------------------------------------------------------
  // reading every page

  /** The same search asking for page `page`. */
  function AtPage(p: SearchParams, page: int): SearchParams
  {
    p.(page := Some(page))
  }

  /** Page `k` is the window starting at `(k - 1) * limit` of the sorted matches of `p`. */
  lemma PageKWindow(docs: seq<Resource>, p: SearchParams, k: nat)
    requires LimitOf(p) >= 1 && k >= 1
    ensures Results(AtPage(p, k), docs).resources
         == Window(Ordered(p, docs), Skip(k, LimitOf(p)), LimitOf(p))
  {
    var q := AtPage(p, k);
    assert Ordered(q, docs) == Ordered(p, docs) by {
      SameFiltersSameMatches(docs, p, q);
    }
  }

  /** Page `i` of the search, for every `i` from 1 to `pages`, is window `i` of the sorted
      matches, and those windows concatenated are all the matches in sorted order
      (`SearchIsWindowOfSortedMatches` says what that order and content are); so reading the
      pages one after the other lists every match once and the order holds across page
      boundaries, as long as every page request sees equal keys in the same order, which
      the model assumes. */
  lemma AllPagesAreTheSortedMatches(docs: seq<Resource>, p: SearchParams)
    requires ValidPaging(p)
    ensures var pages := Results(p, docs).pagination.pages;
      var all := Ordered(p, docs);
      && (forall i :: 1 <= i <= pages ==>
            Results(AtPage(p, i), docs).resources
              == Window(all, Skip(i, LimitOf(p)), LimitOf(p)))
      && Paged(all, LimitOf(p), pages) == all
  {
    EveryPageIsItsWindow(docs, p);
    PagesCoverOrdered(docs, p);
  }

  /** Page `i`, for every `i` up to the page count, is the `i`-th window of the ordered
      matches. */
  lemma EveryPageIsItsWindow(docs: seq<Resource>, p: SearchParams)
    requires ValidPaging(p)
    ensures var pages := Results(p, docs).pagination.pages;
      forall i :: 1 <= i <= pages ==>
        Results(AtPage(p, i), docs).resources
          == Window(Ordered(p, docs), Skip(i, LimitOf(p)), LimitOf(p))
  {
    var pages := Results(p, docs).pagination.pages;
    forall i | 1 <= i <= pages
      ensures Results(AtPage(p, i), docs).resources
        == Window(Ordered(p, docs), Skip(i, LimitOf(p)), LimitOf(p))
    {
      PageKWindow(docs, p, i);
    }
  }

  /** The windows up to the page count, concatenated, are all the ordered matches. */
  lemma PagesCoverOrdered(docs: seq<Resource>, p: SearchParams)
    requires ValidPaging(p)
    ensures var pages := Results(p, docs).pagination.pages;
      Paged(Ordered(p, docs), LimitOf(p), pages) == Ordered(p, docs)
  {
    var pages := Results(p, docs).pagination.pages;
    var all := Ordered(p, docs);
    var l := LimitOf(p);
    assert |all| <= pages * l by {
      assert pages == CeilDiv(|MatchesOf(p, docs)|, l);
      PermutationMembers(all, MatchesOf(p, docs));
    }
    PagedCovers(all, l, pages);
  }

  /** Omitted `sortBy`, `limit` and `page` mean newest first, twenty per page, first page: the
      reply is the twenty newest matches. */
  lemma SearchDefaults(docs: seq<Resource>, p: SearchParams)
    requires p.sortBy.None? && p.limit.None? && p.page.None?
    ensures var reply := Results(p, docs);
      && SortFieldOf(SortByOf(p)) == CreatedAt
      && reply.pagination.page == 1 && reply.pagination.limit == 20
      && reply.resources == Upto(SortedOn(CreatedAt, MatchesOf(p, docs)), 20)
  {
    assert SkipOf(p) == 0;
  }

  // ---------------------------------------------------------------------------
  // worked examples

  /** The controller test: one stored match, page 1 of size 10 reports
      `{total: 1, page: 1, limit: 10, pages: 1}`. */
  lemma OneMatchPagination(docs: seq<Resource>, p: SearchParams)
    requires p.page == Some(1) && p.limit == Some(10)
    requires |MatchesOf(p, docs)| == 1
    ensures Results(p, docs).pagination == Pagination(1, 1, 10, 1)
    ensures |Results(p, docs).resources| == 1
  {
    PermutationMembers(Ordered(p, docs), MatchesOf(p, docs));
  }

  /** Twenty-five matches with pages of ten: pages 1, 3 and 4 hold 10, 5 and 0 resources, and
      every response reports three pages. */
  lemma TwentyFiveMatches(docs: seq<Resource>, p: SearchParams)
    requires p.limit == Some(10)
    requires |MatchesOf(p, docs)| == 25
    ensures |Results(AtPage(p, 1), docs).resources| == 10
    ensures |Results(AtPage(p, 3), docs).resources| == 5
    ensures |Results(AtPage(p, 4), docs).resources| == 0
    ensures Results(AtPage(p, 4), docs).pagination.pages == 3
  {
    PermutationMembers(Ordered(p, docs), MatchesOf(p, docs));
    var all := Ordered(p, docs);
    assert |all| == 25;
    PageKWindow(docs, p, 1);
    PageKWindow(docs, p, 3);
    PageKWindow(docs, p, 4);
    assert Skip(3, 10) == 20 && Skip(4, 10) == 30;
    assert |MatchesOf(AtPage(p, 4), docs)| == 25 by {
      SameFiltersSameMatches(docs, p, AtPage(p, 4));
    }
  }
}
