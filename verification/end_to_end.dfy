/** The search page and the server taken together: the query the page sends
    is the one the server reads, so the server answers each page's list
    request with that page of the filtered table in `internal_id` order, and
    answers the count request with the count of that same filter. That the
    page shows the answers to the search it displays is
    `PageState.SettledRowsAnswerShownSearch`; the network between the two is
    a parameter there. */
module EndToEnd {

  import opened Optional
  import opened Text
  import opened Records
  import opened FormEncoding
  import Api
  import opened View
  import opened SearchPage
  import Server

  /** Under unique names the last pair named `k` is also the first, so the
      server's binding and the client's lookup agree. */
  lemma {:induction false} LastValueIsLookup(ps: seq<Param>, k: string)
    requires Api.UniqueNames(ps)
    ensures Server.LastValue(ps, k) == Api.Lookup(ps, k)
    decreases |ps|
  {
    if ps != [] {
      LastValueIsLookup(ps[1..], k);
      if ps[0].0 == k {
        assert k !in Api.Names(ps[1..]);
      }
    }
  }

  /** What the page sends for one form field: nothing when it is blank,
      its trimmed text otherwise. */
  function Sent(s: string): Option<string> {
    if Blank(s) then None else Some(Trim(s))
  }

  /** The server's filters for a form: its four fields as sent, no country
      or phone. */
  function ClientFilters(f: Form): Server.Filters {
    Server.Filters(Sent(f.name), Sent(f.city), Sent(f.region), Sent(f.postalCode), None, None)
  }

  /** A query whose filter names carry what the form sends binds to the
      form's filters. */
  lemma BindFiltersFromLookups(q: seq<Param>, f: Form)
    requires Api.UniqueNames(q)
    requires Api.Lookup(q, "name") == Sent(f.name) && Api.Lookup(q, "city") == Sent(f.city)
    requires Api.Lookup(q, "region") == Sent(f.region) && Api.Lookup(q, "postal_code") == Sent(f.postalCode)
    requires Api.Lookup(q, "country") == None && Api.Lookup(q, "phone") == None
    ensures Server.BindFilters(q) == ClientFilters(f)
  {
    LastValueIsLookup(q, "name");
    LastValueIsLookup(q, "city");
    LastValueIsLookup(q, "region");
    LastValueIsLookup(q, "postal_code");
    LastValueIsLookup(q, "country");
    LastValueIsLookup(q, "phone");
  }

  /** A query that also carries the paging and sort words binds to the full
      argument list. */
  lemma BindListFromLookups(q: seq<Param>, f: Form, offset: int)
    requires Api.UniqueNames(q)
    requires Api.Lookup(q, "name") == Sent(f.name) && Api.Lookup(q, "city") == Sent(f.city)
    requires Api.Lookup(q, "region") == Sent(f.region) && Api.Lookup(q, "postal_code") == Sent(f.postalCode)
    requires Api.Lookup(q, "country") == None && Api.Lookup(q, "phone") == None
    requires Api.Lookup(q, "limit") == Some(IntToString(PageSize))
    requires Api.Lookup(q, "offset") == Some(IntToString(offset))
    requires Api.Lookup(q, "sort_by") == Some("internal_id") && Api.Lookup(q, "sort_dir") == Some("asc")
    ensures Server.BindList(q) == Success(Server.ListArgs(ClientFilters(f), PageSize, offset, "internal_id", "asc"))
  {
    BindFiltersFromLookups(q, f);
    LastValueIsLookup(q, "limit");
    LastValueIsLookup(q, "offset");
    LastValueIsLookup(q, "sort_by");
    LastValueIsLookup(q, "sort_dir");
    ParseIntToString(PageSize);
    ParseIntToString(offset);
  }

  /** The filter lookups of any object whose first seven properties are
      those of form `f`'s filters. */
  lemma FilterLookups(e: seq<Api.Entry>, f: Form)
    requires Api.UniqueNames(e) && |e| >= 7
    requires e[0] == ("name", Api.Str(f.name)) && e[1] == ("city", Api.Str(f.city))
    requires e[2] == ("region", Api.Str(f.region)) && e[3] == ("postal_code", Api.Str(f.postalCode))
    requires e[4] == ("country", Api.Undefined) && e[5] == ("phone", Api.Undefined)
    requires e[6] == ("website", Api.Undefined)
    ensures var q := Api.CleanParams(e);
      && Api.Lookup(q, "name") == Sent(f.name) && Api.Lookup(q, "city") == Sent(f.city)
      && Api.Lookup(q, "region") == Sent(f.region) && Api.Lookup(q, "postal_code") == Sent(f.postalCode)
      && Api.Lookup(q, "country") == None && Api.Lookup(q, "phone") == None
  {
    FilterQuery(e, f, NameField);
    FieldQuery(e, f, CityField);
    FieldQuery(e, f, RegionField);
    FieldQuery(e, f, PostalField);
  }

  /** Any object laid out as a list request for form `f` at row `offset`
      yields a query that binds to the form's filters and that page. */
  lemma BindListOf(e: seq<Api.Entry>, f: Form, offset: int)
    requires Api.UniqueNames(e) && |e| == 11
    requires e[0] == ("name", Api.Str(f.name)) && e[1] == ("city", Api.Str(f.city))
    requires e[2] == ("region", Api.Str(f.region)) && e[3] == ("postal_code", Api.Str(f.postalCode))
    requires e[4] == ("country", Api.Undefined) && e[5] == ("phone", Api.Undefined)
    requires e[6] == ("website", Api.Undefined)
    requires e[7] == ("limit", Api.Num(PageSize)) && e[8] == ("offset", Api.Num(offset))
    requires e[9] == ("sort_by", Api.Str("internal_id")) && e[10] == ("sort_dir", Api.Str("asc"))
    ensures Server.BindList(Api.CleanParams(e))
            == Success(Server.ListArgs(ClientFilters(f), PageSize, offset, "internal_id", "asc"))
  {
    DefaultPagingQuery(e, offset);
    FilterLookups(e, f);
    BindListFromLookups(Api.CleanParams(e), f, offset);
  }

  /** Any object laid out as a count request for form `f` yields a query
      that binds to the form's filters. */
  lemma BindFiltersOf(e: seq<Api.Entry>, f: Form)
    requires Api.UniqueNames(e) && |e| == 7
    requires e[0] == ("name", Api.Str(f.name)) && e[1] == ("city", Api.Str(f.city))
    requires e[2] == ("region", Api.Str(f.region)) && e[3] == ("postal_code", Api.Str(f.postalCode))
    requires e[4] == ("country", Api.Undefined) && e[5] == ("phone", Api.Undefined)
    requires e[6] == ("website", Api.Undefined)
    ensures Server.BindFilters(Api.CleanParams(e)) == ClientFilters(f)
  {
    FilterLookups(e, f);
    BindFiltersFromLookups(Api.CleanParams(e), f);
  }

  /** The query of page `page` binds, on the server, to the form's filters,
      15 rows from row `15 * page`, in `internal_id` order. */
  lemma ListQueryBinds(f: Form, page: int)
    ensures Server.BindList(Api.CleanParams(Api.SearchEntries(ListRequest(f, page))))
            == Success(Server.ListArgs(ClientFilters(f), PageSize, page * PageSize, "internal_id", "asc"))
  {
    SearchEntriesUnique(ListRequest(f, page));
    BindListOf(Api.SearchEntries(ListRequest(f, page)), f, page * PageSize);
  }

  /** The count query binds to the same filters as the list query. */
  lemma CountQueryBinds(f: Form)
    ensures Server.BindFilters(Api.CleanParams(Api.FilterEntries(FormFilters(f)))) == ClientFilters(f)
  {
    FilterEntriesUnique(FormFilters(f));
    BindFiltersOf(Api.FilterEntries(FormFilters(f)), f);
  }

  /** The rows the server returns for page `page` of a form's search. */
  function Served(db: seq<FuneralHome>, f: Form, page: int): Result<seq<FuneralHome>, Server.ApiError> {
    Server.ServeList(db, Api.CleanParams(Api.SearchEntries(ListRequest(f, page))))
  }

  /** The matching rows in `internal_id` order: what the search pages
      through. */
  function Listing(db: seq<FuneralHome>, f: Form): seq<FuneralHome> {
    Server.Sort(Server.ByInternalId, Server.Asc, Server.Select(db, ClientFilters(f)))
  }

  /** A query bound to the form's filters and a page is answered with that
      page of the listing. */
  lemma ServeBound(db: seq<FuneralHome>, q: seq<Param>, f: Form, offset: int)
    requires offset >= 0
    requires Server.BindList(q) == Success(Server.ListArgs(ClientFilters(f), PageSize, offset, "internal_id", "asc"))
    ensures Server.ServeList(db, q) == Success(Server.Page(Listing(db, f), offset, PageSize))
  {
    Server.ListByDefaultOrder(db, ClientFilters(f), PageSize, offset);
  }

  /** A page the search page can reach (`page >= 0`) is answered with the
      slice of the listing that begins at row `15 * page`. */
  lemma PageServed(f: Form, page: int, db: seq<FuneralHome>)
    requires page >= 0
    ensures Served(db, f, page) == Success(Server.Page(Listing(db, f), page * PageSize, PageSize))
  {
    ListQueryBinds(f, page);
    ServeBound(db, Api.CleanParams(Api.SearchEntries(ListRequest(f, page))), f, page * PageSize);
  }

  /** The server parses the URL of a list request back into exactly the
      query the client cleaned. */
  lemma PageUrlParses(base: string, f: Form, page: int)
    requires base != ""
    ensures var url := Api.RequestUrl(Some(base), Api.ListEndpoint, Api.SearchEntries(ListRequest(f, page)));
      && url.Success?
      && ParseQuery(url.value.query) == Some(Api.CleanParams(Api.SearchEntries(ListRequest(f, page))))
  {
  }

  /** The total the page shows is the server's count of the rows its list
      query filters: the length of the listing. */
  lemma CountRequestServed(base: string, f: Form, db: seq<FuneralHome>)
    requires base != ""
    ensures var url := Api.RequestUrl(Some(base), Api.CountEndpoint, Api.FilterEntries(FormFilters(f)));
      && url.Success?
      && Server.ServeCount(db, ParseQuery(url.value.query).value) == |Listing(db, f)|
  {
    CountQueryBinds(f);
    ListingLength(db, f);
  }

  /** The listing holds as many rows as the count. */
  lemma ListingLength(db: seq<FuneralHome>, f: Form)
    ensures |Listing(db, f)| == Server.CountMatching(db, ClientFilters(f))
  {
    var sel := Server.Select(db, ClientFilters(f));
    Server.CountIsSelected(db, ClientFilters(f));
    assert |multiset(Listing(db, f))| == |multiset(sel)|;
  }

  /** With the count the server reported, "Next" is enabled exactly when the
      next page has rows: the buttons never lead to an empty page. */
  lemma NextEnabledIffNextPageHasRows(f: Form, page: int, db: seq<FuneralHome>)
    requires page >= 0
    ensures var total := Server.CountMatching(db, ClientFilters(f));
      && Served(db, f, page + 1).Success?
      && (CanNext(page, total) <==> Served(db, f, page + 1).value != [])
  {
    PageServed(f, page + 1, db);
    ListingLength(db, f);
    CanNextIffMoreRows(page, Server.CountMatching(db, ClientFilters(f)));
  }
}
