/**
  The issue list page: how the untrusted query parameters `status`, `orderBy` and `page` become
  a filter drawn from the `Status` enum, a sort field drawn from the table's columns and a page
  window; the listing and count queries built from them; and the column-header links.
*/
module IssueList {
  import opened Wrappers
  import opened JsParseInt
  import opened IssueStore

  /** The request's query string, one value per key. */
  type SearchParams = map<string, string>

  function Param(params: SearchParams, key: string): Option<string> {
    if key in params then Some(params[key]) else None
  }

  /** `String(x)` of a parameter: a missing one is `undefined`. */
  function JsToString(raw: Option<string>): string {
    match raw
    case Some(s) => s
    case None => "undefined"
  }

  /** The name of a field as a key of `Issue`, which is also how `orderBy` spells it. */
  function FieldName(f: SortField): string {
    match f
    case Title => "title"
    case Status => "status"
    case CreatedAt => "createdAt"
  }

  datatype Column = Column(caption: string, value: SortField, className: Option<string>)

  /** The table's columns; their values are the only fields a listing may be ordered by. */
  const Columns: seq<Column> := [
    Column("Issue", Title, None),
    Column("Status", Status, Some("hidden md:table-cell")),
    Column("Created", CreatedAt, Some("hidden md:table-cell"))
  ]

  const PageSize: nat := 10

  /** The status value that asks for every issue on one page. */
  const AllStatuses: string := "All"

  /** `columns.map((column) => column.value)`. */
  function ValidOrderByFields(): (names: seq<string>)
    ensures names == ["title", "status", "createdAt"]
  {
    seq(|Columns|, i requires 0 <= i < |Columns| => FieldName(Columns[i].value))
  }

  /** The filter status: the parameter itself when it names a member of the enum, otherwise none. */
  function EffectiveStatus(statusEnum: seq<string>, raw: Option<string>): (r: Option<string>)
    ensures r.Some? <==> raw.Some? && raw.value in statusEnum
    ensures r.Some? ==> r == raw
  {
    if raw.Some? && raw.value in statusEnum then raw else None
  }

  /** The field of the first column among `cols` whose value is spelled `name`. */
  function ColumnNamed(cols: seq<Column>, name: string): (r: Option<SortField>)
    ensures r.Some? ==> FieldName(r.value) == name
    ensures r.None? ==> forall i :: 0 <= i < |cols| ==> FieldName(cols[i].value) != name
  {
    if cols == [] then None
    else if FieldName(cols[0].value) == name then Some(cols[0].value)
    else ColumnNamed(cols[1..], name)
  }

  /** The sort field: the `orderBy` parameter when it is one of the columns' values, else `createdAt`. */
  function EffectiveOrderBy(raw: Option<string>): (f: SortField)
    ensures exists i :: 0 <= i < |Columns| && Columns[i].value == f
    ensures raw.Some? && raw.value in ValidOrderByFields() ==> FieldName(f) == raw.value
    ensures !(raw.Some? && raw.value in ValidOrderByFields()) ==> f == CreatedAt
  {
    assert Columns[0].value == Title && Columns[1].value == Status && Columns[2].value == CreatedAt;
    match raw
    case None => CreatedAt
    case Some(name) =>
      var named := ColumnNamed(Columns, name);
      assert named.None? <==> name !in ValidOrderByFields();
      named.GetOr(CreatedAt)
  }

  /** `parseInt(page) || 1`. A missing `page` is `parseInt("undefined")`, which is NaN (`UndefinedIsNaN`). */
  function ParsePage(raw: Option<string>): (page: int)
    ensures page != 0
  {
    var n := match raw
      case Some(s) => ParseInt(s)
      case None => NaN;
    OrElse(n, 1)
  }

  /** The two queries of one request, and the page number handed on to the pagination control. */
  datatype QueryPlan = QueryPlan(listing: FindArgs, countWhere: Where, orderBy: SortField, page: int)

  function Resolve(statusEnum: seq<string>, params: SearchParams): (plan: QueryPlan)
    ensures plan.orderBy == EffectiveOrderBy(Param(params, "orderBy"))
    ensures plan.page == ParsePage(Param(params, "page"))
    ensures plan.countWhere == Where(EffectiveStatus(statusEnum, Param(params, "status")))
    ensures plan.countWhere.status.Some? ==> plan.countWhere.status.value in statusEnum
    ensures plan.listing.orderBy == plan.orderBy
    ensures Param(params, "status") == Some(AllStatuses) ==>
              plan.listing == FindArgs(Where(None), plan.orderBy, None, None)
    ensures Param(params, "status") != Some(AllStatuses) ==>
              plan.listing == FindArgs(plan.countWhere, plan.orderBy, Some((plan.page - 1) * PageSize), Some(PageSize))
    ensures AllStatuses !in statusEnum ==> plan.listing.where == plan.countWhere
  {
    var status := EffectiveStatus(statusEnum, Param(params, "status"));
    var orderByField := EffectiveOrderBy(Param(params, "orderBy"));
    var where := Where(status);
    var page := ParsePage(Param(params, "page"));
    var listing :=
      if Param(params, "status") == Some(AllStatuses) then
        FindArgs(Where(None), orderByField, None, None)
      else
        FindArgs(where, orderByField, Some((page - 1) * PageSize), Some(PageSize));
    QueryPlan(listing, where, orderByField, page)
  }

  /** `{ ...searchParams, orderBy: column.value }`. */
  function HeaderQuery(params: SearchParams, c: Column): (q: SearchParams)
    ensures Param(q, "orderBy") == Some(FieldName(c.value))
    ensures forall k :: k != "orderBy" ==> Param(q, k) == Param(params, k)
  {
    params["orderBy" := FieldName(c.value)]
  }

  datatype HeaderCell = HeaderCell(caption: string, className: Option<string>, href: SearchParams, arrow: bool)

  /** The header row: a link per column, and the arrow `column.value === orderByField`. */
  function Headers(params: SearchParams, orderByField: SortField): (hs: seq<HeaderCell>)
    ensures |hs| == |Columns|
    ensures forall i :: 0 <= i < |hs| ==> hs[i].caption == Columns[i].caption && hs[i].className == Columns[i].className
    ensures forall i :: 0 <= i < |hs| ==> Param(hs[i].href, "orderBy") == Some(FieldName(Columns[i].value))
    ensures forall i, k :: 0 <= i < |hs| && k != "orderBy" ==> Param(hs[i].href, k) == Param(params, k)
    ensures forall i :: 0 <= i < |hs| ==> hs[i].arrow == (Columns[i].value == orderByField)
  {
    var hs := seq(|Columns|, i requires 0 <= i < |Columns| =>
      HeaderCell(Columns[i].caption, Columns[i].className, HeaderQuery(params, Columns[i]), Columns[i].value == orderByField));
    assert forall i :: 0 <= i < |hs| ==> hs[i].href == HeaderQuery(params, Columns[i]);
    hs
  }

  /** What the page renders from: the rows, the header row, and the pagination control's inputs. */
  datatype PageData = PageData(
    issues: seq<Issue>,
    headers: seq<HeaderCell>,
    itemCount: nat,
    currentPage: int,
    pageSize: nat)

  /** `out` is an outcome the page may have on `db`, whichever admissible order the store gives to ties. */
  ghost predicate PageResult(db: Db, params: SearchParams, out: Result<PageData, StoreError>)
    ensures PageResult(db, params, out) ==>
              (out.Failure? <==> Param(params, "status") != Some(AllStatuses) && ParsePage(Param(params, "page")) < 1)
    ensures PageResult(db, params, out) && out.Success? ==>
              out.value.currentPage == ParsePage(Param(params, "page")) && out.value.pageSize == PageSize
  {
    var plan := Resolve(db.statusEnum, params);
    match out
    case Failure(e) => FindManyReturns(db, plan.listing, Failure(e))
    case Success(p) =>
      && FindManyReturns(db, plan.listing, Success(p.issues))
      && p.headers == Headers(params, plan.orderBy)
      && p.itemCount == Count(db, plan.countWhere)
      && p.currentPage == plan.page
      && p.pageSize == PageSize
  }

  /** `IssuesPage`: the listing query, then the count query with the same `where`. */
  function IssuesPage(db: Db, params: SearchParams): (out: Result<PageData, StoreError>)
    ensures PageResult(db, params, out)
  {
    var plan := Resolve(db.statusEnum, params);
    var issues :- FindMany(db, plan.listing);
    var issueCount := Count(db, plan.countWhere);
    Success(PageData(issues, Headers(params, plan.orderBy), issueCount, plan.page, PageSize))
  }

  // ---------------------------------------------------------------------------------------------
  // Page parsing

  /** `parseInt` of a missing parameter reads the string "undefined", which has no digits. */
  lemma UndefinedIsNaN()
    ensures ParseInt(JsToString(None)) == NaN
  {
    var s := JsToString(None);
    assert s[0] == 'u' && !IsStrWhiteSpace(s[0]) && !IsRadixDigit(s[0], 10);
    assert TrimStart(s) == s;
    ParseIntNoDigits(s);
  }

  /** A missing `page` gives page 1. */
  lemma MissingPageIsOne()
    ensures ParsePage(None) == 1
  {
  }

  /** A `page` with no digit where a number should start (after white space and an optional sign) is page 1. */
  lemma NonNumericPageIsOne(s: string)
    requires var t := TrimStart(s);
             var u := if t != [] && (t[0] == '+' || t[0] == '-') then t[1..] else t;
             u == [] || !IsRadixDigit(u[0], 10)
    ensures ParsePage(Some(s)) == 1
  {
    ParseIntNoDigits(s);
  }

  /** Any page parameter `parseInt` reads a run of decimal digits from: leading white space, a sign,
      leading zeros and trailing characters are all accepted, and a zero value falls back to 1. */
  lemma DigitRunPage(ws: string, numeral: string, sign: string, z: string, rest: string)
    requires AllStrWhiteSpace(ws)
    requires sign == [] || sign == ['+'] || sign == ['-']
    requires z != [] && AllRadixDigits(z, 10)
    requires EndsDigitRun(z, rest)
    requires numeral == sign + (z + rest)
    ensures var v: int := DigitsValue(z, 10);
            ParsePage(Some(ws + numeral)) == if v == 0 then 1 else if sign == ['-'] then -v else v
  {
    assert (z + rest)[0] == z[0];
    DecimalDigitIsPlain(z[0]);
    assert numeral[0] == (if sign == [] then z[0] else sign[0]);
    ParseIntSkipsWhiteSpace(ws, numeral);
    ParseIntOfDigitRun(numeral, sign, z, rest);
  }

  /** A negative page number `n` asks the store to skip `(n - 1) * 10` rows, a negative number. */
  lemma NegativePageSkip(statusEnum: seq<string>, params: SearchParams, n: int)
    requires n < 0
    requires Param(params, "page") == Some(DecimalString(n)) && Param(params, "status") != Some(AllStatuses)
    ensures Resolve(statusEnum, params).listing.skip == Some((n - 1) * PageSize)
    ensures (n - 1) * PageSize < 0
  {
    NegativeDecimalPage(n);
  }

  /** `String(n)` of a negative `n` is page `n`. */
  lemma NegativeDecimalPage(n: int)
    requires n < 0
    ensures ParsePage(Some(DecimalString(n))) == n
  {
    assert DecimalString(n) + [] == DecimalString(n);
    ParseIntOfDecimal(n, []);
  }

  /** A paged listing below page 1 fails with the store's refusal of the skip `(page - 1) * 10`. */
  lemma NegativePageFails(db: Db, params: SearchParams, out: Result<PageData, StoreError>)
    requires Param(params, "status") != Some(AllStatuses)
    requires Resolve(db.statusEnum, params).page < 1
    requires PageResult(db, params, out)
    ensures out == Failure(NegativeSkip((Resolve(db.statusEnum, params).page - 1) * PageSize))
  {
  }

  // ---------------------------------------------------------------------------------------------
  // The listing

  /** A paged listing is a sorted window of at most ten matching rows, at offset (page-1)*10 of a
      sorted order of all of them. */
  lemma PagedListing(db: Db, params: SearchParams, p: PageData)
    requires Param(params, "status") != Some(AllStatuses)
    requires PageResult(db, params, Success(p))
    ensures var plan := Resolve(db.statusEnum, params);
            && plan.page >= 1
            && |p.issues| <= PageSize
            && Sorted(db.statusEnum, plan.orderBy, p.issues)
            && (forall x :: x in p.issues ==> x in db.issues && Matches(plan.countWhere, x))
            && exists ordered :: OrderedBy(db.statusEnum, plan.orderBy, ordered, Filter(db.issues, plan.countWhere))
                 && SliceAt(p.issues, ordered, (plan.page - 1) * PageSize)
  {
    var plan := Resolve(db.statusEnum, params);
    FoundWindow(db, plan.listing, p.issues);
  }

  /** A non-empty paged listing ends within the counted rows; it holds ten of them unless it reaches their end. */
  lemma PagedListingFillsPage(db: Db, params: SearchParams, p: PageData)
    requires Param(params, "status") != Some(AllStatuses)
    requires PageResult(db, params, Success(p))
    ensures var skip := (Resolve(db.statusEnum, params).page - 1) * PageSize;
            && (p.issues != [] ==> skip + |p.issues| <= p.itemCount)
            && |p.issues| == if skip >= p.itemCount then 0
                             else if PageSize < p.itemCount - skip then PageSize
                             else p.itemCount - skip
  {
    var plan := Resolve(db.statusEnum, params);
    FoundWindow(db, plan.listing, p.issues);
    CountIsFilterLength(db.issues, plan.countWhere);
  }

  /** A paged listing fails, refused by the store, exactly when the page number is negative. */
  lemma PagedListingFailsBelowPageOne(db: Db, params: SearchParams, out: Result<PageData, StoreError>)
    requires Param(params, "status") != Some(AllStatuses)
    requires PageResult(db, params, out)
    ensures out.Failure? <==> Resolve(db.statusEnum, params).page < 1
  {
  }

  /** With `status=All` the listing is every row of the store, sorted, on one page; when "All" is
      not a status, the count is then the length of that listing. */
  lemma AllListing(db: Db, params: SearchParams, out: Result<PageData, StoreError>)
    requires Param(params, "status") == Some(AllStatuses)
    requires PageResult(db, params, out)
    ensures out.Success?
    ensures OrderedBy(db.statusEnum, Resolve(db.statusEnum, params).orderBy, out.value.issues, db.issues)
    ensures |out.value.issues| == |db.issues|
    ensures AllStatuses !in db.statusEnum ==> out.value.itemCount == |out.value.issues|
  {
    var plan := Resolve(db.statusEnum, params);
    FilterNoConstraint(db.issues);
    var ordered :| OrderedBy(db.statusEnum, plan.orderBy, ordered, db.issues)
                   && out.value.issues == Window(ordered, 0, None);
    assert out.value.issues == ordered;
    assert |ordered| == |multiset(ordered)| == |multiset(db.issues)| == |db.issues|;
  }

  // ---------------------------------------------------------------------------------------------
  // The count

  /** The count is the number of rows matching the filter status, in both modes. */
  lemma CountIsMatchingRows(db: Db, params: SearchParams, p: PageData)
    requires PageResult(db, params, Success(p))
    ensures p.itemCount == |Filter(db.issues, Where(EffectiveStatus(db.statusEnum, Param(params, "status"))))|
  {
    CountIsFilterLength(db.issues, Resolve(db.statusEnum, params).countWhere);
  }

  /** The pagination control gets the page size 10, the parsed page number and the count. */
  lemma PaginationControlInputs(db: Db, params: SearchParams, p: PageData)
    requires PageResult(db, params, Success(p))
    ensures p.pageSize == 10
    ensures p.currentPage == ParsePage(Param(params, "page"))
    ensures p.itemCount == Count(db, Where(EffectiveStatus(db.statusEnum, Param(params, "status"))))
  {
  }

  /** Listing and count never disagree on the rows they consider: always the same `where` on a paged
      listing, and in "All" mode too when "All" is not a member of the enum. */
  lemma ListingAndCountAgree(db: Db, params: SearchParams, p: PageData)
    requires AllStatuses !in db.statusEnum
    requires PageResult(db, params, Success(p))
    ensures multiset(p.issues) <= multiset(Filter(db.issues, Resolve(db.statusEnum, params).countWhere))
    ensures Param(params, "status") == Some(AllStatuses) ==> p.itemCount == |p.issues|
  {
    var plan := Resolve(db.statusEnum, params);
    var matching := Filter(db.issues, plan.countWhere);
    var skip: nat := if plan.listing.skip.Some? then plan.listing.skip.value else 0;
    var ordered :| OrderedBy(db.statusEnum, plan.orderBy, ordered, matching)
                   && p.issues == Window(ordered, skip, plan.listing.take);
    WindowSubMultiset(ordered, skip, plan.listing.take);
    if Param(params, "status") == Some(AllStatuses) {
      AllListing(db, params, Success(p));
    }
  }

  lemma WindowSubMultiset(rows: seq<Issue>, skip: nat, take: Option<nat>)
    ensures multiset(Window(rows, skip, take)) <= multiset(rows)
  {
    if skip < |rows| {
      var end := if take.Some? && skip + take.value < |rows| then skip + take.value else |rows|;
      assert rows == rows[..skip] + rows[skip..end] + rows[end..];
    }
  }

  /** If "All" were a member of the enum, `status=All` would list every row but count only those with status "All". */
  lemma AllMustNotBeAStatus(statusEnum: seq<string>)
    requires AllStatuses in statusEnum
    ensures var plan := Resolve(statusEnum, map["status" := AllStatuses]);
            plan.listing.where != plan.countWhere
  {
  }

  /** The count depends on the `status` parameter only, never on `page` or `orderBy`. */
  lemma CountIgnoresPageAndOrder(db: Db, params1: SearchParams, p1: PageData, params2: SearchParams, p2: PageData)
    requires Param(params1, "status") == Param(params2, "status")
    requires PageResult(db, params1, Success(p1)) && PageResult(db, params2, Success(p2))
    ensures p1.itemCount == p2.itemCount
  {
  }

  // ---------------------------------------------------------------------------------------------
  // The header row

  /** Following a column's header link sorts by that column and keeps the filter and the page. */
  lemma HeaderLinkSortsByColumn(statusEnum: seq<string>, params: SearchParams, i: nat)
    requires i < |Columns|
    ensures var plan := Resolve(statusEnum, params);
            var next := Resolve(statusEnum, Headers(params, plan.orderBy)[i].href);
            && next.orderBy == Columns[i].value
            && next.countWhere == plan.countWhere
            && next.listing.where == plan.listing.where
            && next.page == plan.page
  {
  }

  /** The arrow stands on exactly one header: the column the listing is sorted by. */
  lemma ArrowOnSortedColumnOnly(params: SearchParams, orderByField: SortField)
    ensures var hs := Headers(params, orderByField);
            exists i :: 0 <= i < |hs| && hs[i].arrow && Columns[i].value == orderByField
                        && forall j :: 0 <= j < |hs| && hs[j].arrow ==> j == i
  {
    var hs := Headers(params, orderByField);
    var i := match orderByField case Title => 0 case Status => 1 case CreatedAt => 2;
    assert hs[i].arrow && Columns[i].value == orderByField;
    forall j | 0 <= j < |hs| && hs[j].arrow
      ensures j == i
    {
      assert Columns[j].value == orderByField;
    }
  }
}
