/** The read-only API (`backend/app/main.py`) over a table given as a
    sequence of records: the filters of `apply_filters`, the validation of
    the sort column and direction, the `ORDER BY` and the `LIMIT`/`OFFSET`
    slice of `list_funeral_homes`, and the `count(*)` of
    `count_funeral_homes`. The database is SQLite: `lower()` folds ASCII
    letters only, `NULL` sorts before every value, integers before text, and
    text compares by code point. */
module Server {

  import opened Optional
  import opened Text
  import opened Records
  import opened SqlLike

  // ---------------------------------------------------------------- filters

  /** The filter arguments of both endpoints; `None` when the query lacks
      the parameter. */
  datatype Filters = Filters(
    name: Option<string>, city: Option<string>, region: Option<string>,
    postalCode: Option<string>, country: Option<string>, phone: Option<string>)

  /** No filter at all. */
  const NoFilters := Filters(None, None, None, None, None, None)

  /** Python's truthiness of `str | None`: present and not empty. */
  predicate Given(q: Option<string>) {
    q.Some? && q.value != ""
  }

  /** The `LIKE` pattern of a partial-match filter: `%`, the stripped query
      with its ASCII capitals lower-cased, `%`. Python's `lower()` would
      also fold non-ASCII capitals, so for a query holding one the source's
      pattern differs from this one. */
  function Pattern(q: string): string {
    "%" + Lower(Trim(q)) + "%"
  }

  /** A partial-match filter (name, city, postal code): absent or empty adds
      no condition; otherwise the lower-cased column must be `LIKE` the
      pattern, which a `NULL` column never is. */
  predicate PartialMatch(column: Option<string>, q: Option<string>) {
    !Given(q) || (column.Some? && Like(Lower(column.value), Pattern(q.value)))
  }

  /** The region filter: case-insensitive equality, with no stripping. */
  predicate RegionMatch(column: Option<string>, q: Option<string>) {
    !Given(q) || (column.Some? && Lower(column.value) == Lower(q.value))
  }

  /** The country and phone filters: exact equality. */
  predicate ExactMatch(column: Option<string>, q: Option<string>) {
    !Given(q) || column == Some(q.value)
  }

  /** `apply_filters` as a condition on one record: every given filter holds. */
  predicate Matches(r: FuneralHome, f: Filters) {
    && PartialMatch(r.name, f.name)
    && PartialMatch(r.city, f.city)
    && RegionMatch(r.region, f.region)
    && PartialMatch(r.postalCode, f.postalCode)
    && ExactMatch(r.country, f.country)
    && ExactMatch(r.phone, f.phone)
  }

  /** For a query without `%` or `_` once stripped and lower-cased, a
      partial-match filter is substring search that ignores ASCII case, and
      a `NULL` column never matches. */
  lemma PartialMatchIsSubstring(column: Option<string>, q: string)
    requires q != "" && NoWildcards(Lower(Trim(q)))
    ensures PartialMatch(column, Some(q)) <==> column.Some? && Contains(Lower(column.value), Lower(Trim(q)))
  {
    if column.Some? {
      LikeContains(Lower(column.value), Lower(Trim(q)));
    }
  }

  /** An absent filter and an empty one are the same: neither constrains. */
  lemma EmptyFilterIsNoFilter(column: Option<string>)
    ensures PartialMatch(column, Some("")) && PartialMatch(column, None)
    ensures RegionMatch(column, Some("")) && RegionMatch(column, None)
    ensures ExactMatch(column, Some("")) && ExactMatch(column, None)
  {
  }

  /** The region filter compares letter by letter, ignoring ASCII case, and
      strips nothing: only a value as long as the query can match, and a
      `NULL` region never does. */
  lemma RegionMatchIgnoresCase(column: Option<string>, q: string)
    requires q != ""
    ensures RegionMatch(column, Some(q)) <==>
      && column.Some? && |column.value| == |q|
      && forall i | 0 <= i < |q| :: LowerChar(column.value[i]) == LowerChar(q[i])
  {
    if column.Some? && |column.value| == |q|
       && forall i | 0 <= i < |q| :: LowerChar(column.value[i]) == LowerChar(q[i])
    {
      assert Lower(column.value) == Lower(q);
    }
  }

  /** The three kinds of filter differ on the same text: a region query
      ignores case but not padding, while a country or phone query must be
      the value itself, case included. */
  lemma FilterKindsExamples()
    ensures RegionMatch(Some("ON"), Some("on"))
    ensures !RegionMatch(Some("ON"), Some(" on"))
    ensures !ExactMatch(Some("CA"), Some("ca")) && ExactMatch(Some("CA"), Some("CA"))
    ensures !ExactMatch(None, Some("555-0100"))
  {
    RegionMatchIgnoresCase(Some("ON"), "on");
    assert LowerChar('O') == 'o' && LowerChar('N') == 'n';
    RegionMatchIgnoresCase(Some("ON"), " on");
  }

  /** `apply_filters` adds one independent condition per given filter: a
      record matches them all exactly when it matches each one alone. */
  lemma MatchesEachFilter(r: FuneralHome, f: Filters)
    ensures Matches(r, f) <==>
      && Matches(r, NoFilters.(name := f.name))
      && Matches(r, NoFilters.(city := f.city))
      && Matches(r, NoFilters.(region := f.region))
      && Matches(r, NoFilters.(postalCode := f.postalCode))
      && Matches(r, NoFilters.(country := f.country))
      && Matches(r, NoFilters.(phone := f.phone))
  {
  }

  /** Without filters every record matches. */
  lemma NoFiltersMatchAll(r: FuneralHome)
    ensures Matches(r, NoFilters)
  {
  }

  /** A filter of white space only is not empty, so it applies: its pattern
      is `%%`, which every value matches but a `NULL` column does not. */
  lemma BlankFilterExcludesNull(column: Option<string>, q: string)
    requires q != "" && Blank(q)
    ensures PartialMatch(column, Some(q)) <==> column.Some?
  {
    assert Trim(q) == [];
    assert Pattern(q) == "%" + "%";
    if column.Some? {
      LikeContains(Lower(column.value), []);
      assert OccursAt(Lower(column.value), [], 0);
    }
  }

  /** The rows of the table that match, in table order. */
  function Select(db: seq<FuneralHome>, f: Filters): (r: seq<FuneralHome>)
    ensures |r| <= |db|
    ensures forall i | 0 <= i < |r| :: Matches(r[i], f) && r[i] in db
    ensures forall x | x in db && Matches(x, f) :: x in r
    decreases |db|
  {
    if db == [] then []
    else if Matches(db[0], f) then [db[0]] + Select(db[1..], f)
    else Select(db[1..], f)
  }

  /** `select count(*)` with the filters. */
  function CountMatching(db: seq<FuneralHome>, f: Filters): nat
    decreases |db|
  {
    if db == [] then 0
    else (if Matches(db[0], f) then 1 else 0) + CountMatching(db[1..], f)
  }

  /** The count endpoint counts exactly the rows the list endpoint pages
      through. */
  lemma {:induction false} CountIsSelected(db: seq<FuneralHome>, f: Filters)
    ensures CountMatching(db, f) == |Select(db, f)|
    decreases |db|
  {
    if db != [] {
      CountIsSelected(db[1..], f);
    }
  }

  /** Another filter only narrows the result. */
  lemma {:induction false} SelectNarrows(db: seq<FuneralHome>, f: Filters, g: Filters)
    requires forall x | x in db :: Matches(x, g) ==> Matches(x, f)
    ensures multiset(Select(db, g)) <= multiset(Select(db, f))
    decreases |db|
  {
    if db != [] {
      SelectNarrows(db[1..], f, g);
    }
  }

  // ------------------------------------------------------------- validation

  /** The columns `sort_by` may name. */
  datatype SortKey = ByInternalId | ByName | ByCity | ByRegion | ByPostalCode | ByClusterSize

  datatype Direction = Asc | Desc

  /** The names of the `sortable` mapping, in its order. */
  const SortableNames: seq<string> := ["internal_id", "name", "city", "region", "postal_code", "cluster_size"]

  /** `sortable.get(sort_by)`. */
  function ParseSortBy(s: string): (r: Option<SortKey>)
    ensures r.Some? <==> s in SortableNames
  {
    if s == "internal_id" then Some(ByInternalId)
    else if s == "name" then Some(ByName)
    else if s == "city" then Some(ByCity)
    else if s == "region" then Some(ByRegion)
    else if s == "postal_code" then Some(ByPostalCode)
    else if s == "cluster_size" then Some(ByClusterSize)
    else None
  }

  /** The name `sort_by` takes for each column. */
  function SortName(k: SortKey): string {
    match k
    case ByInternalId => "internal_id"
    case ByName => "name"
    case ByCity => "city"
    case ByRegion => "region"
    case ByPostalCode => "postal_code"
    case ByClusterSize => "cluster_size"
  }

  /** Every column is named by exactly its own name. */
  lemma ParseSortByName(k: SortKey)
    ensures ParseSortBy(SortName(k)) == Some(k)
  {
  }

  /** The direction, compared after lower-casing (`sort_dir.lower()`). */
  function ParseSortDir(s: string): (r: Option<Direction>)
    ensures r == Some(Asc) <==> Lower(s) == "asc"
    ensures r == Some(Desc) <==> Lower(s) == "desc"
  {
    var l := Lower(s);
    if l == "asc" then Some(Asc) else if l == "desc" then Some(Desc) else None
  }

  /** Any capitalisation of `asc` or `desc` is accepted. */
  lemma SortDirIgnoresCase(s: string)
    ensures ParseSortDir(s) == ParseSortDir(Lower(s))
  {
    assert Lower(Lower(s)) == Lower(s);
  }

  /** How a request is refused: 422 for a parameter that fails FastAPI's
      declared constraints, 400 with a detail for the handler's own checks. */
  datatype ApiError = Unprocessable | BadRequest(detail: string)

  /** The 400 detail for an unknown `sort_by`, listing the sortable
      columns. */
  const InvalidSortByDetail := "Invalid sort_by. Choose one of: " + Join(SortableNames, ", ")

  const InvalidSortDirDetail := "sort_dir must be 'asc' or 'desc'"

  // ---------------------------------------------------------------- sorting

  /** A column value as SQLite orders it. */
  datatype SqlValue = SqlNull | SqlInt(i: int) | SqlText(t: string)

  /** The sort column of a record. */
  function KeyOf(r: FuneralHome, k: SortKey): SqlValue {
    match k
    case ByInternalId => SqlInt(r.internalId)
    case ByName => TextValue(r.name)
    case ByCity => TextValue(r.city)
    case ByRegion => TextValue(r.region)
    case ByPostalCode => TextValue(r.postalCode)
    case ByClusterSize => if r.clusterSize.Some? then SqlInt(r.clusterSize.value) else SqlNull
  }

  function TextValue(v: Option<string>): SqlValue {
    if v.Some? then SqlText(v.value) else SqlNull
  }

  /** Code-point order on text (the `BINARY` collation). */
  predicate TextLe(a: string, b: string)
    decreases |a|
  {
    a == [] || (b != [] && (a[0] < b[0] || (a[0] == b[0] && TextLe(a[1..], b[1..]))))
  }

  /** SQLite's ascending order: `NULL`, then integers, then text. */
  predicate ValueLe(a: SqlValue, b: SqlValue) {
    match (a, b)
    case (SqlNull, _) => true
    case (_, SqlNull) => false
    case (SqlInt(x), SqlInt(y)) => x <= y
    case (SqlInt(_), SqlText(_)) => true
    case (SqlText(_), SqlInt(_)) => false
    case (SqlText(x), SqlText(y)) => TextLe(x, y)
  }

  lemma {:induction false} TextLeTotal(a: string, b: string)
    ensures TextLe(a, b) || TextLe(b, a)
    decreases |a|
  {
    if a != [] && b != [] && a[0] == b[0] {
      TextLeTotal(a[1..], b[1..]);
    }
  }

  lemma {:induction false} TextLeTrans(a: string, b: string, c: string)
    requires TextLe(a, b) && TextLe(b, c)
    ensures TextLe(a, c)
    decreases |a|
  {
    if a != [] && a[0] == b[0] && b[0] == c[0] {
      TextLeTrans(a[1..], b[1..], c[1..]);
    }
  }

  lemma {:induction false} TextLeAntisym(a: string, b: string)
    requires TextLe(a, b) && TextLe(b, a)
    ensures a == b
    decreases |a|
  {
    if a != [] {
      TextLeAntisym(a[1..], b[1..]);
      assert a == [a[0]] + a[1..] && b == [b[0]] + b[1..];
    }
  }

  /** The order on values is total, transitive and antisymmetric. */
  lemma ValueLeOrder(a: SqlValue, b: SqlValue, c: SqlValue)
    ensures ValueLe(a, b) || ValueLe(b, a)
    ensures ValueLe(a, b) && ValueLe(b, c) ==> ValueLe(a, c)
    ensures ValueLe(a, b) && ValueLe(b, a) ==> a == b
  {
    if a.SqlText? && b.SqlText? {
      TextLeTotal(a.t, b.t);
      if TextLe(a.t, b.t) && TextLe(b.t, a.t) {
        TextLeAntisym(a.t, b.t);
      }
      if c.SqlText? && TextLe(a.t, b.t) && TextLe(b.t, c.t) {
        TextLeTrans(a.t, b.t, c.t);
      }
    }
  }

  /** `ORDER BY col ASC` or `DESC`: `a` may come before `b`. */
  predicate Precedes(k: SortKey, d: Direction, a: FuneralHome, b: FuneralHome) {
    if d == Asc then ValueLe(KeyOf(a, k), KeyOf(b, k)) else ValueLe(KeyOf(b, k), KeyOf(a, k))
  }

  lemma PrecedesTotal(k: SortKey, d: Direction, a: FuneralHome, b: FuneralHome)
    ensures Precedes(k, d, a, b) || Precedes(k, d, b, a)
  {
    ValueLeOrder(KeyOf(a, k), KeyOf(b, k), KeyOf(a, k));
  }

  lemma PrecedesTrans(k: SortKey, d: Direction, a: FuneralHome, b: FuneralHome, c: FuneralHome)
    requires Precedes(k, d, a, b) && Precedes(k, d, b, c)
    ensures Precedes(k, d, a, c)
  {
    if d == Asc {
      ValueLeOrder(KeyOf(a, k), KeyOf(b, k), KeyOf(c, k));
    } else {
      ValueLeOrder(KeyOf(c, k), KeyOf(b, k), KeyOf(a, k));
    }
  }

  /** Every row may come before every later row. */
  predicate Sorted(k: SortKey, d: Direction, xs: seq<FuneralHome>) {
    forall i, j | 0 <= i < j < |xs| :: Precedes(k, d, xs[i], xs[j])
  }

  /** `x` put into a sorted sequence where it belongs. */
  function Insert(k: SortKey, d: Direction, x: FuneralHome, xs: seq<FuneralHome>): (r: seq<FuneralHome>)
    requires Sorted(k, d, xs)
    ensures Sorted(k, d, r)
    ensures multiset(r) == multiset(xs) + multiset{x}
    decreases |xs|
  {
    if xs == [] then [x]
    else if Precedes(k, d, x, xs[0]) then
      InsertFront(k, d, x, xs);
      [x] + xs
    else
      PrecedesTotal(k, d, x, xs[0]);
      var t := Insert(k, d, x, xs[1..]);
      assert xs == [xs[0]] + xs[1..];
      forall j | 0 <= j < |t| ensures Precedes(k, d, xs[0], t[j]) {
        assert t[j] in multiset(t);
        if t[j] != x {
          assert t[j] in multiset(xs[1..]);
          var m :| 0 <= m < |xs[1..]| && xs[1..][m] == t[j];
          assert xs[m + 1] == t[j];
        }
      }
      ConsSorted(k, d, xs[0], t);
      [xs[0]] + t
  }

  lemma InsertFront(k: SortKey, d: Direction, x: FuneralHome, xs: seq<FuneralHome>)
    requires Sorted(k, d, xs) && xs != [] && Precedes(k, d, x, xs[0])
    ensures Sorted(k, d, [x] + xs)
  {
    forall j | 0 <= j < |xs| ensures Precedes(k, d, x, xs[j]) {
      if j > 0 {
        PrecedesTrans(k, d, x, xs[0], xs[j]);
      }
    }
    ConsSorted(k, d, x, xs);
  }

  lemma ConsSorted(k: SortKey, d: Direction, x: FuneralHome, xs: seq<FuneralHome>)
    requires Sorted(k, d, xs)
    requires forall j | 0 <= j < |xs| :: Precedes(k, d, x, xs[j])
    ensures Sorted(k, d, [x] + xs)
  {
    var r := [x] + xs;
    forall i, j | 0 <= i < j < |r| ensures Precedes(k, d, r[i], r[j]) {
      assert r[j] == xs[j - 1];
      if i > 0 {
        assert r[i] == xs[i - 1];
      }
    }
  }

  /** `ORDER BY`: the rows rearranged into the requested order. SQL leaves
      the order of equal keys open; this picks the table order among them. */
  function Sort(k: SortKey, d: Direction, xs: seq<FuneralHome>): (r: seq<FuneralHome>)
    ensures Sorted(k, d, r)
    ensures multiset(r) == multiset(xs)
    decreases |xs|
  {
    if xs == [] then []
    else
      assert xs == [xs[0]] + xs[1..];
      Insert(k, d, xs[0], Sort(k, d, xs[1..]))
  }

  /** Rows are distinguished by their `internal_id` (the primary key). */
  predicate DistinctIds(xs: seq<FuneralHome>) {
    forall i, j | 0 <= i < j < |xs| :: xs[i].internalId != xs[j].internalId
  }

  /** Ordered by the primary key, the order is fully determined: two sorted
      arrangements of the same rows are the same sequence, so the choice
      among equal keys never shows there. */
  lemma {:induction false} SortedByIdDetermined(d: Direction, xs: seq<FuneralHome>, ys: seq<FuneralHome>)
    requires Sorted(ByInternalId, d, xs) && Sorted(ByInternalId, d, ys)
    requires multiset(xs) == multiset(ys) && DistinctIds(xs)
    ensures xs == ys
    decreases |xs|
  {
    if xs != [] {
      assert |ys| == |multiset(ys)| == |multiset(xs)| == |xs|;
      SameHead(d, xs, ys);
      SortedTail(ByInternalId, d, xs);
      SortedTail(ByInternalId, d, ys);
      SameTailRows(xs, ys);
      DistinctTail(xs);
      SortedByIdDetermined(d, xs[1..], ys[1..]);
      assert xs == [xs[0]] + xs[1..] && ys == [ys[0]] + ys[1..];
    }
  }

  /** Without the same first row, the same rows remain. */
  lemma SameTailRows(xs: seq<FuneralHome>, ys: seq<FuneralHome>)
    requires xs != [] && ys != [] && xs[0] == ys[0] && multiset(xs) == multiset(ys)
    ensures multiset(xs[1..]) == multiset(ys[1..])
  {
    assert xs == [xs[0]] + xs[1..] && ys == [ys[0]] + ys[1..];
    assert multiset(xs[1..]) == multiset(xs) - multiset{xs[0]};
    assert multiset(ys[1..]) == multiset(ys) - multiset{ys[0]};
  }

  /** The rows after the first still have distinct keys. */
  lemma DistinctTail(xs: seq<FuneralHome>)
    requires xs != [] && DistinctIds(xs)
    ensures DistinctIds(xs[1..])
  {
    forall i, j | 0 <= i < j < |xs[1..]| ensures xs[1..][i].internalId != xs[1..][j].internalId {
      assert xs[1..][i] == xs[i + 1] && xs[1..][j] == xs[j + 1];
    }
  }

  lemma SortedTail(k: SortKey, d: Direction, xs: seq<FuneralHome>)
    requires Sorted(k, d, xs) && xs != []
    ensures Sorted(k, d, xs[1..])
  {
    forall i, j | 0 <= i < j < |xs[1..]| ensures Precedes(k, d, xs[1..][i], xs[1..][j]) {
      assert xs[1..][i] == xs[i + 1] && xs[1..][j] == xs[j + 1];
    }
  }

  /** Two sorted arrangements of the same rows with distinct keys start with
      the same row. */
  lemma SameHead(d: Direction, xs: seq<FuneralHome>, ys: seq<FuneralHome>)
    requires Sorted(ByInternalId, d, xs) && Sorted(ByInternalId, d, ys)
    requires multiset(xs) == multiset(ys) && DistinctIds(xs) && xs != [] && ys != []
    ensures xs[0] == ys[0]
  {
    var a, b := xs[0], ys[0];
    assert b in multiset(xs);
    assert a in multiset(ys);
    var i :| 0 <= i < |xs| && xs[i] == b;
    var j :| 0 <= j < |ys| && ys[j] == a;
    if i > 0 && j > 0 {
      assert Precedes(ByInternalId, d, a, b) && Precedes(ByInternalId, d, b, a);
      ValueLeOrder(KeyOf(a, ByInternalId), KeyOf(b, ByInternalId), KeyOf(a, ByInternalId));
    }
  }

  // ----------------------------------------------------------------- paging

  /** `LIMIT limit OFFSET offset`: the rows from `offset`, at most `limit` of
      them, and none when `offset` is past the end. */
  function Page(xs: seq<FuneralHome>, offset: int, limit: int): (r: seq<FuneralHome>)
    requires offset >= 0 && limit >= 0
    ensures |r| <= limit
    ensures offset >= |xs| ==> r == []
    ensures offset < |xs| ==> |r| == if offset + limit <= |xs| then limit else |xs| - offset
    ensures forall i | 0 <= i < |r| :: r[i] == xs[offset + i]
  {
    if offset >= |xs| then []
    else if offset + limit <= |xs| then xs[offset..offset + limit]
    else xs[offset..]
  }

  /** Consecutive pages of the same size join into one page of twice the
      size: paging neither skips nor repeats a row. */
  lemma PagesAdjoin(xs: seq<FuneralHome>, offset: int, limit: int)
    requires offset >= 0 && limit >= 0
    ensures Page(xs, offset, limit) + Page(xs, offset + limit, limit) == Page(xs, offset, 2 * limit)
  {
  }

  // -------------------------------------------------------------- endpoints

  /** `GET /funeral-homes`: FastAPI's checks of `limit` and `offset`, then
      the handler's check of `sort_by`, then of `sort_dir`, then the filtered,
      ordered page. */
  function ListFuneralHomes(
    db: seq<FuneralHome>, f: Filters, limit: int, offset: int, sortBy: string, sortDir: string)
    : (r: Result<seq<FuneralHome>, ApiError>)
    ensures r == Failure(Unprocessable) <==> !(1 <= limit <= 500) || offset < 0
    ensures r == Failure(BadRequest(InvalidSortByDetail))
            <==> 1 <= limit <= 500 && offset >= 0 && sortBy !in SortableNames
    ensures r == Failure(BadRequest(InvalidSortDirDetail))
            <==> 1 <= limit <= 500 && offset >= 0 && sortBy in SortableNames && ParseSortDir(sortDir).None?
  {
    if !(1 <= limit <= 500) || offset < 0 then Failure(Unprocessable)
    else match ParseSortBy(sortBy)
      case None => Failure(BadRequest(InvalidSortByDetail))
      case Some(k) =>
        match ParseSortDir(sortDir)
        case None => Failure(BadRequest(InvalidSortDirDetail))
        case Some(d) => Success(Page(Sort(k, d, Select(db, f)), offset, limit))
  }

  /** The page's own sort words name a column and a direction. */
  lemma DefaultSortParses()
    ensures ParseSortBy("internal_id") == Some(ByInternalId)
    ensures ParseSortDir("asc") == Some(Asc)
  {
    assert Lower("asc") == "asc";
  }

  /** With admissible paging and the default sort words, the list endpoint
      answers with that page of the matching rows in `internal_id` order. */
  lemma ListByDefaultOrder(db: seq<FuneralHome>, f: Filters, limit: int, offset: int)
    requires 1 <= limit <= 500 && offset >= 0
    ensures ListFuneralHomes(db, f, limit, offset, "internal_id", "asc")
            == Success(Page(Sort(ByInternalId, Asc, Select(db, f)), offset, limit))
  {
    DefaultSortParses();
  }

  /** `GET /funeral-homes/count`. */
  function CountFuneralHomes(db: seq<FuneralHome>, f: Filters): nat {
    CountMatching(db, f)
  }

  /** A successful list answer holds at most `limit` rows and at most the
      count, is empty once `offset` reaches the count, and otherwise holds
      as many rows as remain, up to `limit`. */
  lemma ListWithinCount(
    db: seq<FuneralHome>, f: Filters, limit: int, offset: int, sortBy: string, sortDir: string)
    requires ListFuneralHomes(db, f, limit, offset, sortBy, sortDir).Success?
    ensures var rows := ListFuneralHomes(db, f, limit, offset, sortBy, sortDir).value;
      var count := CountFuneralHomes(db, f);
      && |rows| <= limit && |rows| <= count
      && (offset >= count ==> rows == [])
      && (offset < count ==> |rows| == if offset + limit <= count then limit else count - offset)
  {
    ListAnswer(db, f, limit, offset, sortBy, sortDir);
    CountIsSelected(db, f);
    SortKeepsLength(ParseSortBy(sortBy).value, ParseSortDir(sortDir).value, Select(db, f));
  }

  /** A successful list answer is the requested page of the sorted matching
      rows, and its arguments passed every check. */
  lemma ListAnswer(
    db: seq<FuneralHome>, f: Filters, limit: int, offset: int, sortBy: string, sortDir: string)
    requires ListFuneralHomes(db, f, limit, offset, sortBy, sortDir).Success?
    ensures 1 <= limit <= 500 && offset >= 0
    ensures ParseSortBy(sortBy).Some? && ParseSortDir(sortDir).Some?
    ensures ListFuneralHomes(db, f, limit, offset, sortBy, sortDir).value
            == Page(Sort(ParseSortBy(sortBy).value, ParseSortDir(sortDir).value, Select(db, f)), offset, limit)
  {
  }

  /** Sorting neither adds nor drops rows. */
  lemma SortKeepsLength(k: SortKey, d: Direction, xs: seq<FuneralHome>)
    ensures |Sort(k, d, xs)| == |xs|
  {
    assert |multiset(Sort(k, d, xs))| == |multiset(xs)|;
  }

  /** Every listed row is a row of the table that matches the filters, and
      the answer is a stretch of the matching rows in the requested order. */
  lemma ListRowsMatch(
    db: seq<FuneralHome>, f: Filters, limit: int, offset: int, sortBy: string, sortDir: string)
    requires ListFuneralHomes(db, f, limit, offset, sortBy, sortDir).Success?
    ensures var rows := ListFuneralHomes(db, f, limit, offset, sortBy, sortDir).value;
      && (forall i | 0 <= i < |rows| :: rows[i] in db && Matches(rows[i], f))
      && Sorted(ParseSortBy(sortBy).value, ParseSortDir(sortDir).value, rows)
  {
    ListAnswer(db, f, limit, offset, sortBy, sortDir);
    var k := ParseSortBy(sortBy).value;
    var d := ParseSortDir(sortDir).value;
    var sel := Select(db, f);
    var sorted := Sort(k, d, sel);
    var rows := Page(sorted, offset, limit);
    forall i | 0 <= i < |rows| ensures rows[i] in db && Matches(rows[i], f) {
      assert rows[i] == sorted[offset + i];
      assert rows[i] in multiset(sel) by {
        assert sorted[offset + i] in multiset(sorted);
      }
      var m :| 0 <= m < |sel| && sel[m] == rows[i];
    }
    forall i, j | 0 <= i < j < |rows| ensures Precedes(k, d, rows[i], rows[j]) {
      assert rows[i] == sorted[offset + i] && rows[j] == sorted[offset + j];
    }
  }

  // ---------------------------------------------------------------- binding

  /** The value a scalar query parameter is bound to: that of the last pair
      with its name, as Starlette's query mapping keeps the last. */
  function LastValue(ps: seq<(string, string)>, k: string): (r: Option<string>)
    ensures r.Some? ==> exists i | 0 <= i < |ps| :: ps[i] == (k, r.value)
    decreases |ps|
  {
    if ps == [] then None
    else
      var rest := LastValue(ps[1..], k);
      if rest.Some? then
        assert exists i | 0 <= i < |ps[1..]| :: ps[1..][i] == (k, rest.value);
        var i :| 0 <= i < |ps[1..]| && ps[1..][i] == (k, rest.value);
        assert ps[i + 1] == (k, rest.value);
        rest
      else if ps[0].0 == k then
        assert ps[0] == (k, ps[0].1);
        Some(ps[0].1)
      else None
  }

  /** An integer parameter: its default when absent, a 422 when it is not a
      decimal integer. */
  function BindInt(ps: seq<(string, string)>, k: string, default: int): (r: Result<int, ApiError>)
    ensures LastValue(ps, k).None? ==> r == Success(default)
    ensures LastValue(ps, k).Some? ==>
      (r.Success? <==> ParseInt(LastValue(ps, k).value).Some?)
      && (r.Success? ==> r.value == ParseInt(LastValue(ps, k).value).value)
    ensures r.Failure? ==> r.error == Unprocessable
  {
    match LastValue(ps, k)
    case None => Success(default)
    case Some(v) =>
      match ParseInt(v)
      case None => Failure(Unprocessable)
      case Some(n) => Success(n)
  }

  /** The filter arguments read from a query. */
  function BindFilters(ps: seq<(string, string)>): Filters {
    Filters(LastValue(ps, "name"), LastValue(ps, "city"), LastValue(ps, "region"),
            LastValue(ps, "postal_code"), LastValue(ps, "country"), LastValue(ps, "phone"))
  }

  /** The arguments of the list endpoint, with their declared defaults. */
  datatype ListArgs = ListArgs(filters: Filters, limit: int, offset: int, sortBy: string, sortDir: string)

  /** The list endpoint's arguments read from a query: `limit` defaults to
      15, `offset` to 0, `sort_by` to `internal_id`, `sort_dir` to `asc`. */
  function BindList(ps: seq<(string, string)>): (r: Result<ListArgs, ApiError>)
    ensures r.Success? <==> BindInt(ps, "limit", 15).Success? && BindInt(ps, "offset", 0).Success?
    ensures r.Success? ==>
      && r.value.limit == BindInt(ps, "limit", 15).value
      && r.value.offset == BindInt(ps, "offset", 0).value
      && r.value.filters == BindFilters(ps)
      && r.value.sortBy == LastValue(ps, "sort_by").GetOr("internal_id")
      && r.value.sortDir == LastValue(ps, "sort_dir").GetOr("asc")
  {
    match (BindInt(ps, "limit", 15), BindInt(ps, "offset", 0))
    case (Success(limit), Success(offset)) =>
      Success(ListArgs(BindFilters(ps), limit, offset,
                       LastValue(ps, "sort_by").GetOr("internal_id"), LastValue(ps, "sort_dir").GetOr("asc")))
    case _ => Failure(Unprocessable)
  }

  /** `GET /funeral-homes?<query>`. */
  function ServeList(db: seq<FuneralHome>, ps: seq<(string, string)>): Result<seq<FuneralHome>, ApiError> {
    match BindList(ps)
    case Failure(e) => Failure(e)
    case Success(a) => ListFuneralHomes(db, a.filters, a.limit, a.offset, a.sortBy, a.sortDir)
  }

  /** `GET /funeral-homes/count?<query>`. */
  function ServeCount(db: seq<FuneralHome>, ps: seq<(string, string)>): nat {
    CountFuneralHomes(db, BindFilters(ps))
  }

  /** A query without paging or sorting parameters lists the first 15 rows
      in `internal_id` order. */
  lemma DefaultsListFirstPage(db: seq<FuneralHome>, ps: seq<(string, string)>)
    requires forall i | 0 <= i < |ps| :: ps[i].0 !in {"limit", "offset", "sort_by", "sort_dir"}
    ensures ServeList(db, ps) == Success(Page(Sort(ByInternalId, Asc, Select(db, BindFilters(ps))), 0, 15))
  {
    NoValue(ps, "limit");
    NoValue(ps, "offset");
    NoValue(ps, "sort_by");
    NoValue(ps, "sort_dir");
    ListByDefaultOrder(db, BindFilters(ps), 15, 0);
  }

  lemma NoValue(ps: seq<(string, string)>, k: string)
    requires forall i | 0 <= i < |ps| :: ps[i].0 != k
    ensures LastValue(ps, k) == None
  {
  }
}
