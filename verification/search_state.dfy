/**
 * The client side of the resource search: the search parameters kept in the page's URL, the
 * hook that holds the parameters, the results and the fetch status, the handlers that change
 * the parameters, and the list's filter options and pagination controls.
 */
module SearchState {
  import opened Wrappers
  import opened Numbers
  import opened Collections
  import opened ResourceModel
  import opened BodyFields
  import Search

  /** The client's search parameters; every field may be undefined. `semester` is always
      written as a number by the page, so the model keeps it as one. */
  datatype ClientParams = ClientParams(
    page: Option<Num>,
    limit: Option<Num>,
    searchText: Option<string>,
    department: Option<string>,
    semester: Option<Num>,
    fileType: Option<string>,
    sortBy: Option<string>)

  /** The hook's parameters when it is given none. */
  const HookDefaults := ClientParams(Some(Int(1)), Some(Int(10)), None, None, None, None, Some("recent"))

  // ---------------------------------------------------------------------------
  // the URL's query string

  /** One `key=value` pair of the query string, already decoded. */
  datatype QueryParam = QueryParam(key: string, value: string)

  type Query = seq<QueryParam>

  function KeyOf(x: QueryParam): string { x.key }

  /** `URLSearchParams.get`: the value of the first pair with the key, `None` (null) when no
      pair has it. */
  function Get(q: Query, key: string): (v: Option<string>)
    ensures v.None? <==> forall i :: 0 <= i < |q| ==> q[i].key != key
    ensures v.Some? ==> QueryParam(key, v.value) in q
  {
    if |q| == 0 then None
    else if q[0].key == key then Some(q[0].value)
    else Get(q[1..], key)
  }

  /** Looking a key up in a concatenation looks in the first part, then in the second. */
  lemma {:induction false} GetConcat(a: Query, b: Query, key: string)
    ensures Get(a + b, key) == if Get(a, key).Some? then Get(a, key) else Get(b, key)
  {
    if |a| > 0 {
      assert (a + b)[1..] == a[1..] + b;
      GetConcat(a[1..], b, key);
    } else {
      assert a + b == b;
    }
  }

  /** A numeric parameter as the page decodes it: `get(key) ? Number(get(key)) : default`. */
  function NumberParam(q: Query, key: string, default: int): (n: Num)
    ensures !Truthy(Get(q, key)) ==> n == Int(default)
    ensures Truthy(Get(q, key)) ==> n == NumberOf(Get(q, key).value)
  {
    var s := Get(q, key);
    if Truthy(s) then NumberOf(s.value) else Int(default)
  }

  /** A text parameter as the page decodes it: `get(key) || undefined`. */
  function TextParam(q: Query, key: string): (t: Option<string>)
    ensures t.Some? <==> Truthy(Get(q, key))
    ensures t.Some? ==> t == Get(q, key)
  {
    var s := Get(q, key);
    if Truthy(s) then s else None
  }

  /**
   * The page's `initialParams`: page and limit through `Number` with defaults 1 and 12, the
   * text filters undefined unless non-empty, the semester through `Number` when non-empty, and
   * `sortBy` defaulting to 'recent'.
   */
  function FromUrl(q: Query): (p: ClientParams)
    ensures p.page.Some? && p.limit.Some? && p.sortBy.Some? && p.sortBy.value != ""
    ensures p.page == Some(NumberParam(q, "page", 1)) && p.limit == Some(NumberParam(q, "limit", 12))
    ensures p.searchText != Some("") && p.department != Some("") && p.fileType != Some("")
    ensures p.semester.Some? <==> Truthy(Get(q, "semester"))
    ensures !Truthy(Get(q, "sortBy")) ==> p.sortBy == Some("recent")
  {
    var semester := Get(q, "semester");
    ClientParams(
      Some(NumberParam(q, "page", 1)),
      Some(NumberParam(q, "limit", 12)),
      TextParam(q, "searchText"),
      TextParam(q, "department"),
      if Truthy(semester) then Some(NumberOf(semester.value)) else None,
      TextParam(q, "fileType"),
      Some(OrElse(Get(q, "sortBy"), "recent")))
  }

  /** One pair when there is a value to write, none otherwise. */
  function Emit(key: string, value: Option<string>): (q: Query)
    ensures Get(q, key) == value
    ensures forall k :: k != key ==> Get(q, k).None?
  {
    if value.Some? then [QueryParam(key, value.value)] else []
  }

  /** What the page writes for each parameter: the page only above 1, the text filters and the
      semester only when truthy, the sort only when it is not 'recent'. */
  function PageText(p: ClientParams): Option<string>
  {
    if p.page.Some? && p.page.value.Int? && p.page.value.v > 1 then Some(IntToDecimal(p.page.value.v)) else None
  }

  function TextOf(t: Option<string>): Option<string>
  {
    if Truthy(t) then t else None
  }

  function SemesterText(p: ClientParams): Option<string>
  {
    if p.semester.Some? && p.semester.value.Truthy() then Some(IntToDecimal(p.semester.value.v)) else None
  }

  function SortText(p: ClientParams): Option<string>
  {
    if Truthy(p.sortBy) && p.sortBy.value != "recent" then p.sortBy else None
  }

  /** The effect that rewrites the URL from the current parameters. The limit is never
      written. */
  function ToUrl(p: ClientParams): (q: Query)
    ensures |q| <= 6
  {
    Emit("page", PageText(p)) + Emit("searchText", TextOf(p.searchText)) + Emit("department", TextOf(p.department))
      + Emit("semester", SemesterText(p)) + Emit("fileType", TextOf(p.fileType)) + Emit("sortBy", SortText(p))
  }

  /** A lookup in six concatenated parts finds the first part that has the key. */
  lemma GetOfSix(e1: Query, e2: Query, e3: Query, e4: Query, e5: Query, e6: Query, k: string)
    ensures Get(e1 + e2 + e3 + e4 + e5 + e6, k) ==
      if Get(e1, k).Some? then Get(e1, k) else if Get(e2, k).Some? then Get(e2, k)
      else if Get(e3, k).Some? then Get(e3, k) else if Get(e4, k).Some? then Get(e4, k)
      else if Get(e5, k).Some? then Get(e5, k) else Get(e6, k)
  {
    GetConcat(e1, e2, k);
    GetConcat(e1 + e2, e3, k);
    GetConcat(e1 + e2 + e3, e4, k);
    GetConcat(e1 + e2 + e3 + e4, e5, k);
    GetConcat(e1 + e2 + e3 + e4 + e5, e6, k);
  }

  /** Reading the written URL back key by key gives exactly what was written for that key. */
  lemma ToUrlGet(p: ClientParams)
    ensures var q := ToUrl(p);
      && Get(q, "page") == PageText(p)
      && Get(q, "limit").None?
      && Get(q, "searchText") == TextOf(p.searchText)
      && Get(q, "department") == TextOf(p.department)
      && Get(q, "semester") == SemesterText(p)
      && Get(q, "fileType") == TextOf(p.fileType)
      && Get(q, "sortBy") == SortText(p)
  {
    ToUrlGetPaging(p);
    ToUrlGetSemester(p);
    ToUrlGetFileType(p);
    ToUrlGetSort(p);
  }

  /** The page, the limit, the search text and the department read back as written. */
  lemma ToUrlGetPaging(p: ClientParams)
    ensures var q := ToUrl(p);
      && Get(q, "page") == PageText(p)
      && Get(q, "limit").None?
      && Get(q, "searchText") == TextOf(p.searchText)
      && Get(q, "department") == TextOf(p.department)
  {
    var e1 := Emit("page", PageText(p));
    var e2 := Emit("searchText", TextOf(p.searchText));
    var e3 := Emit("department", TextOf(p.department));
    var e4 := Emit("semester", SemesterText(p));
    var e5 := Emit("fileType", TextOf(p.fileType));
    var e6 := Emit("sortBy", SortText(p));
    assert "page"[0] == 'p' && "searchText"[0] == 's' && "department"[0] == 'd' && "limit"[0] == 'l';
    assert "semester"[0] == 's' && "fileType"[0] == 'f' && "sortBy"[0] == 's';
    assert |"searchText"| == 10 && |"semester"| == 8 && |"sortBy"| == 6;
    GetOfSix(e1, e2, e3, e4, e5, e6, "page");
    GetOfSix(e1, e2, e3, e4, e5, e6, "limit");
    GetOfSix(e1, e2, e3, e4, e5, e6, "searchText");
    GetOfSix(e1, e2, e3, e4, e5, e6, "department");
  }

  /** The semester reads back as written. */
  lemma ToUrlGetSemester(p: ClientParams)
    ensures Get(ToUrl(p), "semester") == SemesterText(p)
  {
    var e1 := Emit("page", PageText(p));
    var e2 := Emit("searchText", TextOf(p.searchText));
    var e3 := Emit("department", TextOf(p.department));
    var e4 := Emit("semester", SemesterText(p));
    var e5 := Emit("fileType", TextOf(p.fileType));
    var e6 := Emit("sortBy", SortText(p));
    assert "page"[0] == 'p' && "searchText"[0] == 's' && "department"[0] == 'd';
    assert "semester"[0] == 's' && "fileType"[0] == 'f' && "sortBy"[0] == 's';
    assert |"searchText"| == 10 && |"semester"| == 8 && |"sortBy"| == 6;
    GetOfSix(e1, e2, e3, e4, e5, e6, "semester");
  }

  /** The file type reads back as written. */
  lemma ToUrlGetFileType(p: ClientParams)
    ensures Get(ToUrl(p), "fileType") == TextOf(p.fileType)
  {
    var e1 := Emit("page", PageText(p));
    var e2 := Emit("searchText", TextOf(p.searchText));
    var e3 := Emit("department", TextOf(p.department));
    var e4 := Emit("semester", SemesterText(p));
    var e5 := Emit("fileType", TextOf(p.fileType));
    var e6 := Emit("sortBy", SortText(p));
    assert "page"[0] == 'p' && "searchText"[0] == 's' && "department"[0] == 'd';
    assert "semester"[0] == 's' && "fileType"[0] == 'f' && "sortBy"[0] == 's';
    assert |"searchText"| == 10 && |"semester"| == 8 && |"sortBy"| == 6;
    GetOfSix(e1, e2, e3, e4, e5, e6, "fileType");
  }

  /** The sort reads back as written. */
  lemma ToUrlGetSort(p: ClientParams)
    ensures Get(ToUrl(p), "sortBy") == SortText(p)
  {
    var e1 := Emit("page", PageText(p));
    var e2 := Emit("searchText", TextOf(p.searchText));
    var e3 := Emit("department", TextOf(p.department));
    var e4 := Emit("semester", SemesterText(p));
    var e5 := Emit("fileType", TextOf(p.fileType));
    var e6 := Emit("sortBy", SortText(p));
    assert "page"[0] == 'p' && "searchText"[0] == 's' && "department"[0] == 'd';
    assert "semester"[0] == 's' && "fileType"[0] == 'f' && "sortBy"[0] == 's';
    assert |"searchText"| == 10 && |"semester"| == 8 && |"sortBy"| == 6;
    GetOfSix(e1, e2, e3, e4, e5, e6, "sortBy");
  }

  /** The parameters a URL reload reproduces exactly: limit 12, a page of at least 1, text
      filters undefined or non-empty, a semester undefined or non-zero, and a sort given and
      non-empty. */
  predicate Reloadable(p: ClientParams)
  {
    && p.page.Some? && p.page.value.Int? && p.page.value.v >= 1
    && p.limit == Some(Int(12))
    && p.searchText != Some("") && p.department != Some("") && p.fileType != Some("")
    && (p.semester.Some? ==> p.semester.value.Truthy())
    && Truthy(p.sortBy)
  }

  /** Decoding the URL the page wrote gives back the parameters it was written from. */
  lemma UrlRoundTrip(p: ClientParams)
    requires Reloadable(p)
    ensures FromUrl(ToUrl(p)) == p
  {
    ToUrlGet(p);
    ReadsBack(ToUrl(p), p);
  }

  /** Any query holding what the page writes for `p` decodes to `p`. */
  lemma ReadsBack(q: Query, p: ClientParams)
    requires Reloadable(p)
    requires Get(q, "page") == PageText(p) && Get(q, "limit").None?
    requires Get(q, "searchText") == TextOf(p.searchText) && Get(q, "department") == TextOf(p.department)
    requires Get(q, "semester") == SemesterText(p) && Get(q, "fileType") == TextOf(p.fileType)
    requires Get(q, "sortBy") == SortText(p)
    ensures FromUrl(q) == p
  {
    var p' := FromUrl(q);
    var n := p.page.value.v;
    if n > 1 {
      NumberOfRoundTrip(n);
    }
    assert p'.page == p.page;
    if p.semester.Some? {
      NumberOfRoundTrip(p.semester.value.v);
    }
    assert p'.semester == p.semester;
    assert p'.limit == p.limit;
    assert p'.searchText == p.searchText;
    assert p'.department == p.department;
    assert p'.fileType == p.fileType;
    assert p'.sortBy == p.sortBy;
  }

  /** Whatever the parameters, the URL is stable: decoding it and writing it again gives the
      same URL, and the decoded parameters are reloadable except for the limit. */
  lemma UrlStable(p: ClientParams)
    ensures ToUrl(FromUrl(ToUrl(p))) == ToUrl(p)
    ensures Reloadable(FromUrl(ToUrl(p)).(limit := Some(Int(12))))
  {
    var p' := FromUrl(ToUrl(p));
    ToUrlGet(p);
    if PageText(p).Some? {
      NumberOfRoundTrip(p.page.value.v);
    }
    if SemesterText(p).Some? {
      NumberOfRoundTrip(p.semester.value.v);
    }
    assert PageText(p') == PageText(p);
    assert SemesterText(p') == SemesterText(p);
    assert SortText(p') == SortText(p);
  }

  /** The limit is not kept in the URL: after a reload it is 12 whatever it was. */
  lemma ReloadResetsLimit(p: ClientParams)
    ensures FromUrl(ToUrl(p)).limit == Some(Int(12))
  {
    ToUrlGet(p);
  }

  // ---------------------------------------------------------------------------
  // updating the parameters

  /** A partial update: for each field, `None` when the key is absent and `Some(v)` when it is
      present, `v` possibly undefined. */
  datatype ParamsPatch = ParamsPatch(
    page: Option<Option<Num>>,
    limit: Option<Option<Num>>,
    searchText: Option<Option<string>>,
    department: Option<Option<string>>,
    semester: Option<Option<Num>>,
    fileType: Option<Option<string>>,
    sortBy: Option<Option<string>>)

  const NoChange := ParamsPatch(None, None, None, None, None, None, None)

  function Pick<T>(current: Option<T>, update: Option<Option<T>>): Option<T>
  {
    if update.Some? then update.value else current
  }

  /** `{ ...params, ...patch }`: a key present in the patch overrides, even with undefined;
      every other key keeps its value. */
  function Merge(p: ClientParams, patch: ParamsPatch): (r: ClientParams)
    ensures patch.page.Some? ==> r.page == patch.page.value
    ensures patch.page.None? ==> r.page == p.page
    ensures patch.limit.Some? ==> r.limit == patch.limit.value
    ensures patch.limit.None? ==> r.limit == p.limit
    ensures patch.searchText.Some? ==> r.searchText == patch.searchText.value
    ensures patch.searchText.None? ==> r.searchText == p.searchText
    ensures patch.department.Some? ==> r.department == patch.department.value
    ensures patch.department.None? ==> r.department == p.department
    ensures patch.semester.Some? ==> r.semester == patch.semester.value
    ensures patch.semester.None? ==> r.semester == p.semester
    ensures patch.fileType.Some? ==> r.fileType == patch.fileType.value
    ensures patch.fileType.None? ==> r.fileType == p.fileType
    ensures patch.sortBy.Some? ==> r.sortBy == patch.sortBy.value
    ensures patch.sortBy.None? ==> r.sortBy == p.sortBy
  {
    ClientParams(
      Pick(p.page, patch.page), Pick(p.limit, patch.limit), Pick(p.searchText, patch.searchText),
      Pick(p.department, patch.department), Pick(p.semester, patch.semester),
      Pick(p.fileType, patch.fileType), Pick(p.sortBy, patch.sortBy))
  }

  /** Two patches applied in turn: the later one wins on every key it has. */
  function Then(a: ParamsPatch, b: ParamsPatch): ParamsPatch
  {
    ParamsPatch(
      if b.page.Some? then b.page else a.page,
      if b.limit.Some? then b.limit else a.limit,
      if b.searchText.Some? then b.searchText else a.searchText,
      if b.department.Some? then b.department else a.department,
      if b.semester.Some? then b.semester else a.semester,
      if b.fileType.Some? then b.fileType else a.fileType,
      if b.sortBy.Some? then b.sortBy else a.sortBy)
  }

  /** The empty patch changes nothing, applying a patch twice is applying it once, and two
      merges in turn are one merge of the combined patch. */
  lemma MergeLaws(p: ClientParams, a: ParamsPatch, b: ParamsPatch)
    ensures Merge(p, NoChange) == p
    ensures Merge(Merge(p, a), a) == Merge(p, a)
    ensures Merge(Merge(p, a), b) == Merge(p, Then(a, b))
  {
  }

  /** The list's handlers: a sort change sets only the sort; a department, semester or search
      change sets that filter and goes back to page 1. The semester selection turns '' into
      undefined and anything else into `Number(value)`. */
  function SortChange(value: string): ParamsPatch
  {
    NoChange.(sortBy := Some(Some(value)))
  }

  function DepartmentChange(value: string): ParamsPatch
  {
    NoChange.(department := Some(Some(value)), page := Some(Some(Int(1))))
  }

  function SemesterChange(value: string): ParamsPatch
  {
    NoChange.(semester := Some(if value != "" then Some(NumberOf(value)) else None), page := Some(Some(Int(1))))
  }

  function SearchInput(text: string): ParamsPatch
  {
    NoChange.(searchText := Some(Some(text)), page := Some(Some(Int(1))))
  }

  /** The page's `handlePageChange`: only the page. */
  function PageChange(page: int): ParamsPatch
  {
    NoChange.(page := Some(Some(Int(page))))
  }

  /** A filter change goes back to the first page, which the URL then leaves out; a sort
      change keeps the page. Only the changed filter and the page differ. */
  lemma FilterChangeResetsPage(p: ClientParams, value: string)
    ensures Merge(p, DepartmentChange(value)).page == Some(Int(1))
    ensures Merge(p, SemesterChange(value)).page == Some(Int(1))
    ensures Merge(p, SearchInput(value)).page == Some(Int(1))
    ensures Merge(p, SortChange(value)).page == p.page
    ensures Merge(p, DepartmentChange(value)) == p.(department := Some(value), page := Some(Int(1)))
    ensures Merge(p, SearchInput(value)) == p.(searchText := Some(value), page := Some(Int(1)))
    ensures Merge(p, SortChange(value)) == p.(sortBy := Some(value))
    ensures Get(ToUrl(Merge(p, DepartmentChange(value))), "page").None?
    ensures Get(ToUrl(Merge(p, SemesterChange(value))), "page").None?
    ensures Get(ToUrl(Merge(p, SearchInput(value))), "page").None?
  {
    ToUrlGet(Merge(p, DepartmentChange(value)));
    ToUrlGet(Merge(p, SemesterChange(value)));
    ToUrlGet(Merge(p, SearchInput(value)));
  }

  /** Choosing the semester option rendered for `sem` selects the semester `sem`, and the
      'All Semesters' option clears it. */
  lemma SemesterOptionSelects(p: ClientParams, sem: int)
    ensures Merge(p, SemesterChange(IntToDecimal(sem))).semester == Some(Int(sem))
    ensures Merge(p, SemesterChange("")).semester.None?
  {
    NumberOfRoundTrip(sem);
  }

  // ---------------------------------------------------------------------------
  // the hook

  /** The results page the server answers with. */
  datatype SearchPage = SearchPage(resources: seq<Resource>, pagination: Search.Pagination)

  /** The hook's state. */
  datatype HookState = HookState(
    resources: seq<Resource>,
    pagination: Search.Pagination,
    loading: bool,
    error: Option<string>,
    params: ClientParams)

  const InitialPagination := Search.Pagination(0, 1, 10, 0)

  /** The hook before its first fetch completes: no results, the initial pagination, loading,
      and the given parameters or the defaults. */
  function InitHook(initial: Option<ClientParams>): (s: HookState)
    ensures s.resources == [] && s.pagination == InitialPagination && s.loading && s.error.None?
    ensures initial.Some? ==> s.params == initial.value
    ensures initial.None? ==>
      s.params.page == Some(Int(1)) && s.params.limit == Some(Int(10)) && s.params.sortBy == Some("recent")
  {
    HookState([], InitialPagination, true, None, initial.GetOr(HookDefaults))
  }

  /** How the request ended: the server's page, or an error whose body may carry a message. */
  datatype FetchOutcome = Fetched(page: SearchPage) | FetchFailed(message: Option<string>)

  /** A fetch: the state afterwards and what it returns (the response, or null). */
  datatype FetchRun = FetchRun(state: HookState, response: Option<SearchPage>)

  const FetchErrorDefault := "Failed to fetch resources"

  /** `fetchResources`: on success the results and pagination are replaced and the error is
      cleared; on failure the error is the server's message or a default, and results and
      pagination stay. Loading is off afterwards either way, and the parameters stay. */
  function Fetch(s: HookState, outcome: FetchOutcome): (run: FetchRun)
    ensures !run.state.loading && run.state.params == s.params
    ensures run.response.Some? <==> outcome.Fetched?
    ensures outcome.Fetched? ==>
      && run.response == Some(outcome.page) && run.state.error.None?
      && run.state.resources == outcome.page.resources && run.state.pagination == outcome.page.pagination
    ensures outcome.FetchFailed? ==>
      && run.state.resources == s.resources && run.state.pagination == s.pagination
      && run.state.error == Some(OrElse(outcome.message, FetchErrorDefault))
      && Truthy(run.state.error)
  {
    match outcome
    case Fetched(page) => FetchRun(s.(resources := page.resources, pagination := page.pagination,
                                       loading := false, error := None), Some(page))
    case FetchFailed(message) => FetchRun(s.(loading := false, error := Some(OrElse(message, FetchErrorDefault))), None)
  }

  /** `updateSearch`: the merged parameters become the hook's and are the ones the request is
      sent with. */
  datatype SearchUpdate = SearchUpdate(sent: ClientParams, run: FetchRun)

  function UpdateSearch(s: HookState, patch: ParamsPatch, outcome: FetchOutcome): (u: SearchUpdate)
    ensures u.sent == Merge(s.params, patch) && u.run.state.params == u.sent
    ensures !u.run.state.loading
    ensures outcome.FetchFailed? ==> u.run.state.resources == s.resources && u.run.state.error.Some?
  {
    var params := Merge(s.params, patch);
    SearchUpdate(params, Fetch(s.(params := params), outcome))
  }

  /** A page change followed by a filter change leaves the hook on page 1 with the filter set,
      whatever the answers were. */
  lemma PageThenFilter(s: HookState, page: int, value: string, o1: FetchOutcome, o2: FetchOutcome)
    ensures var s1 := UpdateSearch(s, PageChange(page), o1).run.state;
      var s2 := UpdateSearch(s1, DepartmentChange(value), o2).run.state;
      s2.params == s.params.(page := Some(Int(1)), department := Some(value))
  {
  }

  // ---------------------------------------------------------------------------
  // the list

  /** The pagination bar: Previous and Next with their disabled state and target, the page
      buttons in order, and the current page. */
  datatype Pager = Pager(
    prevDisabled: bool, prevTarget: int, buttons: seq<int>, current: int,
    nextDisabled: bool, nextTarget: int)

  /** The bar is shown only when there is more than one page. */
  function PagerOf(p: Search.Pagination): (v: Option<Pager>)
    ensures v.Some? <==> p.pages > 1
    ensures v.Some? ==>
      && (v.value.prevDisabled <==> p.page == 1) && v.value.prevTarget == p.page - 1
      && (v.value.nextDisabled <==> p.page == p.pages) && v.value.nextTarget == p.page + 1
      && |v.value.buttons| == p.pages && (forall i :: 0 <= i < p.pages ==> v.value.buttons[i] == i + 1)
      && v.value.current == p.page
  {
    if p.pages > 1 then
      Some(Pager(p.page == 1, p.page - 1, seq(p.pages, i => i + 1), p.page, p.page == p.pages, p.page + 1))
    else None
  }

  /** When the current page is one of the pages, every enabled button leads to one of the
      pages, and the current page is marked on exactly one page button. */
  lemma PagerStaysInRange(p: Search.Pagination)
    requires p.pages > 1 && 1 <= p.page <= p.pages
    ensures var v := PagerOf(p).value;
      && (!v.prevDisabled ==> v.prevTarget in v.buttons)
      && (!v.nextDisabled ==> v.nextTarget in v.buttons)
      && (forall i :: 0 <= i < |v.buttons| ==> (v.buttons[i] == v.current <==> i == p.page - 1))
  {
    var v := PagerOf(p).value;
    if !v.prevDisabled {
      assert v.buttons[p.page - 2] == v.prevTarget;
    }
    if !v.nextDisabled {
      assert v.buttons[p.page] == v.nextTarget;
    }
  }

  /** For a search the server answered, the bar appears exactly when there are more matches
      than fit on one page. */
  lemma PagerShownIffOverflow(total: nat, limit: nat)
    requires limit >= 1
    ensures PagerOf(Search.Pagination(total, 1, limit, Search.CeilDiv(total, limit))).Some? <==> total > limit
  {
    var pages := Search.CeilDiv(total, limit);
    if total > limit {
      MoreThanOneFactor(pages, limit);
    } else if total > 0 {
      AtMostOneFactor(pages - 1, limit);
    }
  }

  lemma MoreThanOneFactor(a: nat, b: nat)
    requires b >= 1 && a * b > b
    ensures a > 1
  {
  }

  lemma AtMostOneFactor(a: int, b: nat)
    requires b >= 1 && a * b < b
    ensures a < 1
  {
  }

  /** The filter choices offered above the list. */
  datatype FilterOptions = FilterOptions(departments: seq<string>, semesters: seq<int>, fileTypes: seq<string>)

  const NoOptions := FilterOptions([], [], [])

  /** What the list shows: an error box, or the listing with its parts. */
  datatype ListView =
    | ErrorBox(message: string)
    | Listing(departmentSelect: bool, semesterSelect: bool, spinner: bool, emptyNotice: bool,
              cards: seq<Resource>, pager: Option<Pager>)

  /** A non-empty error replaces everything else; otherwise the selects appear when they have
      options, the spinner while loading, the empty notice when loading is done and nothing was
      found, the cards otherwise, and the pager as above. */
  function ViewOf(error: Option<string>, loading: bool, resources: seq<Resource>,
                  pagination: Search.Pagination, options: FilterOptions): (v: ListView)
    ensures v.ErrorBox? <==> Truthy(error)
    ensures v.ErrorBox? ==> v.message == error.value
    ensures v.Listing? ==>
      && (v.emptyNotice <==> !loading && |resources| == 0) && v.spinner == loading
      && v.cards == (if v.emptyNotice then [] else resources)
      && v.pager == PagerOf(pagination)
      && (v.departmentSelect <==> |options.departments| > 0)
      && (v.semesterSelect <==> |options.semesters| > 0)
  {
    if Truthy(error) then ErrorBox(error.value)
    else
      var empty := !loading && |resources| == 0;
      Listing(|options.departments| > 0, |options.semesters| > 0, loading, empty,
              if empty then [] else resources, PagerOf(pagination))
  }

  /** After a failed fetch the list shows the error and nothing else; after a successful one it
      shows the listing. */
  lemma FetchDecidesView(s: HookState, outcome: FetchOutcome, options: FilterOptions)
    ensures var t := Fetch(s, outcome).state;
      var v := ViewOf(t.error, t.loading, t.resources, t.pagination, options);
      (v.ErrorBox? <==> outcome.FetchFailed?)
      && (outcome.Fetched? ==> v.cards == outcome.page.resources)
  {
  }

  // ---------------------------------------------------------------------------
  // filter options

  function DepartmentsOf(rs: seq<Resource>): (ds: seq<string>)
    ensures |ds| == |rs| && forall i :: 0 <= i < |rs| ==> ds[i] == rs[i].department
  {
    seq(|rs|, i requires 0 <= i < |rs| => rs[i].department)
  }

  function SemestersOf(rs: seq<Resource>): (ss: seq<int>)
    ensures |ss| == |rs| && forall i :: 0 <= i < |rs| ==> ss[i] == rs[i].semester
  {
    seq(|rs|, i requires 0 <= i < |rs| => rs[i].semester)
  }

  function FileTypesOf(rs: seq<Resource>): (ts: seq<string>)
    ensures |ts| == |rs| && forall i :: 0 <= i < |rs| ==> ts[i] == rs[i].fileType
  {
    seq(|rs|, i requires 0 <= i < |rs| => rs[i].fileType)
  }

  function Negate(x: int): int { -x }

  /** `s` is in strictly increasing order. */
  predicate StrictlyAscending(s: seq<int>)
  {
    forall i, j :: 0 <= i < j < |s| ==> s[i] < s[j]
  }

  /** `Array.from(new Set(s)).sort((a, b) => a - b)`: each value once, smallest first. */
  function DistinctAscending(s: seq<int>): (r: seq<int>)
    ensures StrictlyAscending(r)
    ensures forall x :: x in r <==> x in s
  {
    var d := Dedupe(s);
    var r := SortDesc(Negate, d);
    SortKeepsNoDup(Negate, d);
    PermutationMembers(r, d);
    assert forall i, j :: 0 <= i < j < |r| ==> r[i] != r[j];
    assert forall i, j :: 0 <= i < j < |r| ==> Negate(r[i]) >= Negate(r[j]);
    r
  }

  /** The department select's options: each department once, in order of first appearance. */
  function DepartmentOptions(rs: seq<Resource>): (o: seq<string>)
    ensures NoDup(o)
    ensures forall i, j :: 0 <= i < j < |o| ==> IndexOf(DepartmentsOf(rs), o[i]) < IndexOf(DepartmentsOf(rs), o[j])
    ensures forall d :: d in o <==> exists i :: 0 <= i < |rs| && rs[i].department == d
  {
    var ds := DepartmentsOf(rs);
    assert forall d :: d in ds <==> exists i :: 0 <= i < |rs| && rs[i].department == d by {
      forall d | d in ds ensures exists i :: 0 <= i < |rs| && rs[i].department == d {
        var i :| 0 <= i < |ds| && ds[i] == d;
      }
    }
    DedupeKeepsFirstOrder(ds);
    Dedupe(ds)
  }

  /** The file-type select's options: each type once, in order of first appearance. */
  function FileTypeOptions(rs: seq<Resource>): (o: seq<string>)
    ensures NoDup(o)
    ensures forall i, j :: 0 <= i < j < |o| ==> IndexOf(FileTypesOf(rs), o[i]) < IndexOf(FileTypesOf(rs), o[j])
    ensures forall t :: t in o <==> exists i :: 0 <= i < |rs| && rs[i].fileType == t
  {
    var ts := FileTypesOf(rs);
    assert forall t :: t in ts <==> exists i :: 0 <= i < |rs| && rs[i].fileType == t by {
      forall t | t in ts ensures exists i :: 0 <= i < |rs| && rs[i].fileType == t {
        var i :| 0 <= i < |ts| && ts[i] == t;
      }
    }
    DedupeKeepsFirstOrder(ts);
    Dedupe(ts)
  }

  /** The semester select's options: each semester once, ascending. */
  function SemesterOptions(rs: seq<Resource>): (o: seq<int>)
    ensures StrictlyAscending(o)
    ensures forall n :: n in o <==> exists i :: 0 <= i < |rs| && rs[i].semester == n
  {
    var ss := SemestersOf(rs);
    assert forall n :: n in ss <==> exists i :: 0 <= i < |rs| && rs[i].semester == n by {
      forall n | n in ss ensures exists i :: 0 <= i < |rs| && rs[i].semester == n {
        var i :| 0 <= i < |ss| && ss[i] == n;
      }
    }
    DistinctAscending(ss)
  }

  /**
   * The page's option extraction: with results, the departments and file types in order of
   * first appearance and each once, the semesters each once and ascending; with no results,
   * the previous options stay.
   */
  function ExtractOptions(current: FilterOptions, rs: seq<Resource>): (o: FilterOptions)
    ensures |rs| == 0 ==> o == current
    ensures |rs| > 0 ==>
      && NoDup(o.departments) && NoDup(o.fileTypes) && StrictlyAscending(o.semesters)
      && (forall i, j :: 0 <= i < j < |o.departments| ==>
            IndexOf(DepartmentsOf(rs), o.departments[i]) < IndexOf(DepartmentsOf(rs), o.departments[j]))
      && (forall i, j :: 0 <= i < j < |o.fileTypes| ==>
            IndexOf(FileTypesOf(rs), o.fileTypes[i]) < IndexOf(FileTypesOf(rs), o.fileTypes[j]))
      && (forall d :: d in o.departments <==> exists i :: 0 <= i < |rs| && rs[i].department == d)
      && (forall t :: t in o.fileTypes <==> exists i :: 0 <= i < |rs| && rs[i].fileType == t)
      && (forall n :: n in o.semesters <==> exists i :: 0 <= i < |rs| && rs[i].semester == n)
  {
    if |rs| == 0 then current
    else FilterOptions(DepartmentOptions(rs), SemesterOptions(rs), FileTypeOptions(rs))
  }

  /** Every resource on the page is offered by each select, and the page's own department and
      semester select it again. */
  lemma ListedResourceIsOffered(current: FilterOptions, rs: seq<Resource>, i: nat)
    requires i < |rs|
    ensures var o := ExtractOptions(current, rs);
      rs[i].department in o.departments && rs[i].semester in o.semesters && rs[i].fileType in o.fileTypes
  {
  }

  // ---------------------------------------------------------------------------
  // upvotes

  /** `handleUpvote`: the list is fetched again, with the current parameters, only when the
      URL sorts by upvotes; otherwise the card keeps its own count. */
  function UpvoteRefetch(url: Query, current: ClientParams): (refetch: Option<ClientParams>)
    ensures refetch.Some? <==> Get(url, "sortBy") == Some("upvotes")
    ensures refetch.Some? ==> refetch.value == current
  {
    if Get(url, "sortBy") == Some("upvotes") then Some(current) else None
  }

  /** With the URL written from the current parameters, an upvote refetches exactly when the
      list is sorted by upvotes. */
  lemma UpvoteRefetchFollowsSort(p: ClientParams)
    ensures UpvoteRefetch(ToUrl(p), p).Some? <==> p.sortBy == Some("upvotes")
  {
    ToUrlGet(p);
  }
}
