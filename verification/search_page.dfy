/** The search form and its requests (`frontend/app/page.tsx`): the four
    text fields, the paging arithmetic behind the Prev and Next buttons and
    the page counter, the "has filters" test, and the parameter objects the
    page hands to the query client for the list and the count, with what
    their cleaned queries contain. */
module SearchPage {

  import opened Optional
  import opened Text
  import Api
  import opened View

  // -------------------------------------------------------------- paging

  /** `Math.ceil(a / b)` for a positive divisor (Dafny's `/` is the floor
      for a positive divisor, so the ceiling is the negated floor of `-a`). */
  function CeilDiv(a: int, b: int): (q: int)
    requires b > 0
    ensures b * (q - 1) < a <= b * q
  {
    -((-a) / b)
  }

  /** `pageCount`: at least one page, and enough pages of `PageSize` rows to
      hold `total` rows, with no page entirely empty beyond the first. */
  function PageCount(total: int): (n: int)
    ensures n >= 1
    ensures total <= PageSize * n
    ensures n > 1 ==> PageSize * (n - 1) < total
  {
    var q := CeilDiv(total, PageSize);
    if q > 1 then q else 1
  }

  /** `canPrev`. */
  predicate CanPrev(page: int) {
    page > 0
  }

  /** `canNext`. */
  predicate CanNext(page: int, total: int) {
    page + 1 < PageCount(total)
  }

  /** There is a next page exactly when some matching row lies beyond the
      rows of this page and the pages before it. */
  lemma CanNextIffMoreRows(page: int, total: int)
    requires page >= 0
    ensures CanNext(page, total) <==> PageSize * (page + 1) < total
  {
    var n := PageCount(total);
    if page + 1 < n {
      assert PageSize * (page + 1) <= PageSize * (n - 1);
    }
  }

  /** The Prev button's update, `Math.max(0, p - 1)`. */
  function PrevPage(p: int): (r: int)
    ensures r >= 0
    ensures p > 0 ==> r == p - 1
  {
    if p - 1 > 0 then p - 1 else 0
  }

  /** The Next button's update. */
  function NextPage(p: int): (r: int)
    ensures r > p
  {
    p + 1
  }

  /** Prev undoes Next on every page that can be shown, and Next undoes Prev
      wherever Prev was enabled. */
  lemma PrevNextInverse(p: int)
    ensures p >= 0 ==> PrevPage(NextPage(p)) == p
    ensures CanPrev(p) ==> NextPage(PrevPage(p)) == p
  {
  }

  /** The rows of a page start at `page * PageSize`; a page that Next leads
      to starts before the end of the total. */
  lemma NextPageStartsWithinTotal(page: int, total: int)
    requires page >= 0 && CanNext(page, total)
    ensures 0 <= PageSize * NextPage(page) < total
  {
    CanNextIffMoreRows(page, total);
  }

  // ---------------------------------------------------------------- form

  /** `FormState`. */
  datatype Form = Form(name: string, city: string, region: string, postalCode: string)

  /** `initialForm`. */
  const InitialForm := Form("", "", "", "")

  /** The four text fields. */
  datatype Field = NameField | CityField | RegionField | PostalField

  function FieldOf(f: Form, k: Field): string {
    match k
    case NameField => f.name
    case CityField => f.city
    case RegionField => f.region
    case PostalField => f.postalCode
  }

  /** `setForm({ ...form, <field>: value })`: the one field changes and the
      other three are copied. */
  function WithField(f: Form, k: Field, v: string): (r: Form)
    ensures FieldOf(r, k) == v
    ensures forall j: Field :: j != k ==> FieldOf(r, j) == FieldOf(f, j)
  {
    match k
    case NameField => f.(name := v)
    case CityField => f.(city := v)
    case RegionField => f.(region := v)
    case PostalField => f.(postalCode := v)
  }

  /** `hasFilters`: some submitted field holds more than white space. */
  predicate HasFilters(f: Form) {
    exists k: Field :: !Blank(FieldOf(f, k))
  }

  /** The filters object built from a form (`{ ...submitted }`): the four
      fields as text, the filters the page has no field for absent. */
  function FormFilters(f: Form): (r: Api.FilterParams)
    ensures r.name == Api.Str(f.name) && r.city == Api.Str(f.city)
    ensures r.region == Api.Str(f.region) && r.postalCode == Api.Str(f.postalCode)
    ensures r.country.Undefined? && r.phone.Undefined? && r.website.Undefined?
  {
    Api.FilterParams(Api.Str(f.name), Api.Str(f.city), Api.Str(f.region), Api.Str(f.postalCode),
                     Api.Undefined, Api.Undefined, Api.Undefined)
  }

  /** The parameters of the list request for a form and a page. */
  function ListRequest(f: Form, page: int): (p: Api.SearchParams)
    ensures p.filters == FormFilters(f)
    ensures p.limit == PageSize && p.offset == page * PageSize
  {
    Api.SearchParams(FormFilters(f), PageSize, page * PageSize, Api.Str("internal_id"), Api.Str("asc"))
  }

  /** A string of white space is kept out of the query; one with other text
      is sent trimmed. */
  lemma KeepsText(s: string)
    ensures Api.Keeps(Api.Str(s)) <==> !Blank(s)
    ensures Api.Cleaned(Api.Str(s)) == Trim(s)
  {
  }

  /** The form field behind each of the first four filter entries. */
  function FieldAt(i: int): Field
    requires 0 <= i < 4
  {
    [NameField, CityField, RegionField, PostalField][i]
  }

  /** Which entries of a form's filter object reach the query. */
  lemma FormEntryKept(f: Form, i: int)
    requires 0 <= i < 7
    ensures Api.Keeps(Api.FilterEntries(FormFilters(f))[i].1) <==> i < 4 && !Blank(FieldOf(f, FieldAt(i)))
  {
    var entries := Api.FilterEntries(FormFilters(f));
    if i < 4 {
      var k := FieldAt(i);
      assert entries[i].1 == Api.Str(FieldOf(f, k));
      KeepsText(FieldOf(f, k));
    } else {
      assert entries[i].1 == Api.Undefined;
    }
  }

  /** "Filters active" shows exactly when the count request carries a
      filter. */
  lemma HasFiltersIffCountQueryFiltered(f: Form)
    ensures HasFilters(f) <==> Api.CleanParams(Api.FilterEntries(FormFilters(f))) != []
  {
    var entries := Api.FilterEntries(FormFilters(f));
    Api.CleanParamsEmptyIff(entries);
    if HasFilters(f) {
      var k: Field :| !Blank(FieldOf(f, k));
      var i := match k case NameField => 0 case CityField => 1 case RegionField => 2 case PostalField => 3;
      FormEntryKept(f, i);
    } else {
      forall i | 0 <= i < |entries| ensures !Api.Keeps(entries[i].1) {
        FormEntryKept(f, i);
      }
    }
  }

  /** The query parameter each form field is sent as. */
  function FieldKey(k: Field): string {
    match k
    case NameField => "name"
    case CityField => "city"
    case RegionField => "region"
    case PostalField => "postal_code"
  }

  /** The position of a field's property in the filter object. */
  function FieldIndex(k: Field): (i: int)
    ensures 0 <= i < 4 && FieldAt(i) == k
  {
    match k
    case NameField => 0
    case CityField => 1
    case RegionField => 2
    case PostalField => 3
  }

  /** The suffix from `k` has unique names when the suffix after it does and
      its first name is new. */
  lemma UniqueFrom<V>(ps: seq<(string, V)>, k: int)
    requires 0 <= k < |ps| && Api.UniqueNames(ps[k + 1..]) && ps[k].0 !in Api.Names(ps[k + 1..])
    ensures Api.UniqueNames(ps[k..])
    ensures Api.Names(ps[k..]) == {ps[k].0} + Api.Names(ps[k + 1..])
  {
    assert ps[k..][1..] == ps[k + 1..];
  }

  /** The list request's property names are distinct. */
  lemma SearchEntriesUnique(p: Api.SearchParams)
    ensures Api.UniqueNames(Api.SearchEntries(p))
  {
    var e := Api.SearchEntries(p);
    assert e[11..] == [];
    UniqueFrom(e, 10);
    UniqueFrom(e, 9);
    UniqueFrom(e, 8);
    UniqueFrom(e, 7);
    UniqueFrom(e, 6);
    UniqueFrom(e, 5);
    UniqueFrom(e, 4);
    UniqueFrom(e, 3);
    UniqueFrom(e, 2);
    UniqueFrom(e, 1);
    UniqueFrom(e, 0);
    assert e[0..] == e;
  }

  /** An entry whose value is non-blank text is sent with its trimmed text. */
  lemma LookupKeptText(entries: seq<Api.Entry>, i: int, key: string, text: string)
    requires Api.UniqueNames(entries) && 0 <= i < |entries|
    requires entries[i] == (key, Api.Str(text)) && !Blank(text)
    ensures Api.Lookup(Api.CleanParams(entries), key) == Some(Trim(text))
  {
    KeepsText(text);
    Api.CleanParamsOmitsBlank(entries, i);
  }

  /** An entry whose value is a number is sent as its decimal text. */
  lemma LookupKeptNumber(entries: seq<Api.Entry>, i: int, key: string, n: int)
    requires Api.UniqueNames(entries) && 0 <= i < |entries|
    requires entries[i] == (key, Api.Num(n))
    ensures Api.Lookup(Api.CleanParams(entries), key) == Some(IntToString(n))
  {
    IntToStringTrimmed(n);
    Api.CleanParamsOmitsBlank(entries, i);
  }

  /** An entry whose value is absent or blank text is not sent. */
  lemma LookupDropped(entries: seq<Api.Entry>, i: int, key: string)
    requires Api.UniqueNames(entries) && 0 <= i < |entries| && entries[i].0 == key
    requires entries[i].1.Undefined? || (entries[i].1.Str? && Blank(entries[i].1.s))
    ensures Api.Lookup(Api.CleanParams(entries), key) == None
  {
    if entries[i].1.Str? {
      KeepsText(entries[i].1.s);
    }
    Api.CleanParamsOmitsBlank(entries, i);
  }

  /** Non-empty text with no white space at either end is sent unchanged. */
  lemma KeepsTrimmed(s: string)
    requires s != [] && IsTrimmed(s)
    ensures Api.Keeps(Api.Str(s)) && Api.Cleaned(Api.Str(s)) == s
  {
    TrimOfTrimmed(s);
  }

  /** The paging and sorting part of a list request's query, for any
      object whose last four properties are those of the list request. The
      sort words have no white space at their ends, so they are sent as
      written. */
  lemma PagingQuery(e: seq<Api.Entry>, offset: int, sortBy: string, sortDir: string)
    requires Api.UniqueNames(e) && |e| == 11
    requires e[7] == ("limit", Api.Num(PageSize)) && e[8] == ("offset", Api.Num(offset))
    requires e[9] == ("sort_by", Api.Str(sortBy)) && e[10] == ("sort_dir", Api.Str(sortDir))
    requires sortBy != [] && IsTrimmed(sortBy) && sortDir != [] && IsTrimmed(sortDir)
    ensures var q := Api.CleanParams(e);
      && Api.Lookup(q, "limit") == Some(IntToString(PageSize))
      && Api.Lookup(q, "offset") == Some(IntToString(offset))
      && Api.Lookup(q, "sort_by") == Some(sortBy)
      && Api.Lookup(q, "sort_dir") == Some(sortDir)
  {
    LookupKeptNumber(e, 7, "limit", PageSize);
    LookupKeptNumber(e, 8, "offset", offset);
    KeepsTrimmed(sortBy);
    KeepsTrimmed(sortDir);
    Api.CleanParamsOmitsBlank(e, 9);
    Api.CleanParamsOmitsBlank(e, 10);
  }

  /** The query of a page's list request asks for `PageSize` rows from row
      `page * PageSize`, in ascending `internal_id` order. */
  lemma ListQueryPaging(f: Form, page: int)
    ensures var q := Api.CleanParams(Api.SearchEntries(ListRequest(f, page)));
      && Api.Lookup(q, "limit") == Some(IntToString(PageSize))
      && Api.Lookup(q, "offset") == Some(IntToString(page * PageSize))
      && Api.Lookup(q, "sort_by") == Some("internal_id")
      && Api.Lookup(q, "sort_dir") == Some("asc")
  {
    SearchEntriesUnique(ListRequest(f, page));
    DefaultPagingQuery(Api.SearchEntries(ListRequest(f, page)), page * PageSize);
  }

  /** The paging part of the query with the page's own sort words. */
  lemma DefaultPagingQuery(e: seq<Api.Entry>, offset: int)
    requires Api.UniqueNames(e) && |e| == 11
    requires e[7] == ("limit", Api.Num(PageSize)) && e[8] == ("offset", Api.Num(offset))
    requires e[9] == ("sort_by", Api.Str("internal_id")) && e[10] == ("sort_dir", Api.Str("asc"))
    ensures var q := Api.CleanParams(e);
      && Api.Lookup(q, "limit") == Some(IntToString(PageSize))
      && Api.Lookup(q, "offset") == Some(IntToString(offset))
      && Api.Lookup(q, "sort_by") == Some("internal_id")
      && Api.Lookup(q, "sort_dir") == Some("asc")
  {
    VisibleEnds("internal_id");
    VisibleEnds("asc");
    PagingQuery(e, offset, "internal_id", "asc");
  }

  /** The filter part of the query, for any object whose first seven
      properties are those of a form's filters. */
  lemma FilterQuery(e: seq<Api.Entry>, f: Form, k: Field)
    requires Api.UniqueNames(e) && |e| >= 7
    requires e[FieldIndex(k)] == (FieldKey(k), Api.Str(FieldOf(f, k)))
    requires e[4] == ("country", Api.Undefined) && e[5] == ("phone", Api.Undefined)
    requires e[6] == ("website", Api.Undefined)
    ensures var q := Api.CleanParams(e);
      && Api.Lookup(q, FieldKey(k)) == (if Blank(FieldOf(f, k)) then None else Some(Trim(FieldOf(f, k))))
      && Api.Lookup(q, "country") == None && Api.Lookup(q, "phone") == None && Api.Lookup(q, "website") == None
  {
    FieldQuery(e, f, k);
    LookupDropped(e, 4, "country");
    LookupDropped(e, 5, "phone");
    LookupDropped(e, 6, "website");
  }

  /** One form field of such an object reaches the query trimmed, unless it
      is blank. */
  lemma FieldQuery(e: seq<Api.Entry>, f: Form, k: Field)
    requires Api.UniqueNames(e) && |e| >= 7
    requires e[FieldIndex(k)] == (FieldKey(k), Api.Str(FieldOf(f, k)))
    ensures Api.Lookup(Api.CleanParams(e), FieldKey(k))
            == (if Blank(FieldOf(f, k)) then None else Some(Trim(FieldOf(f, k))))
  {
    var i := FieldIndex(k);
    if Blank(FieldOf(f, k)) {
      LookupDropped(e, i, FieldKey(k));
    } else {
      LookupKeptText(e, i, FieldKey(k), FieldOf(f, k));
    }
  }

  /** Each form field reaches the list query trimmed, unless it is blank,
      and the filters the page has no field for are never sent. */
  lemma ListQueryFilters(f: Form, page: int, k: Field)
    ensures var q := Api.CleanParams(Api.SearchEntries(ListRequest(f, page)));
      && Api.Lookup(q, FieldKey(k)) == (if Blank(FieldOf(f, k)) then None else Some(Trim(FieldOf(f, k))))
      && Api.Lookup(q, "country") == None && Api.Lookup(q, "phone") == None && Api.Lookup(q, "website") == None
  {
    SearchEntriesUnique(ListRequest(f, page));
    FilterQuery(Api.SearchEntries(ListRequest(f, page)), f, k);
  }

  /** The count request's property names are distinct. */
  lemma FilterEntriesUnique(fp: Api.FilterParams)
    ensures Api.UniqueNames(Api.FilterEntries(fp))
  {
    var e := Api.FilterEntries(fp);
    assert e[7..] == [];
    UniqueFrom(e, 6);
    UniqueFrom(e, 5);
    UniqueFrom(e, 4);
    UniqueFrom(e, 3);
    UniqueFrom(e, 2);
    UniqueFrom(e, 1);
    UniqueFrom(e, 0);
    assert e[0..] == e;
  }

  /** The filter part of the query of an object with exactly the seven
      filter properties; it carries no paging. */
  lemma FilterOnlyQuery(e: seq<Api.Entry>, f: Form, k: Field)
    requires Api.UniqueNames(e) && |e| == 7
    requires e[0].0 == "name" && e[1].0 == "city" && e[2].0 == "region" && e[3].0 == "postal_code"
    requires e[FieldIndex(k)] == (FieldKey(k), Api.Str(FieldOf(f, k)))
    requires e[4] == ("country", Api.Undefined) && e[5] == ("phone", Api.Undefined)
    requires e[6] == ("website", Api.Undefined)
    ensures var q := Api.CleanParams(e);
      && Api.Lookup(q, FieldKey(k)) == (if Blank(FieldOf(f, k)) then None else Some(Trim(FieldOf(f, k))))
      && Api.Lookup(q, "country") == None && Api.Lookup(q, "phone") == None && Api.Lookup(q, "website") == None
      && Api.Lookup(q, "limit") == None && Api.Lookup(q, "offset") == None
  {
    FilterQuery(e, f, k);
    FilterKeysOnly(e);
  }

  lemma FilterKeysOnly(e: seq<Api.Entry>)
    requires |e| == 7
    requires e[0].0 == "name" && e[1].0 == "city" && e[2].0 == "region" && e[3].0 == "postal_code"
    requires e[4].0 == "country" && e[5].0 == "phone" && e[6].0 == "website"
    ensures Api.Lookup(Api.CleanParams(e), "limit") == None
    ensures Api.Lookup(Api.CleanParams(e), "offset") == None
  {
    NoSuchName(e, "limit");
    NoSuchName(e, "offset");
  }

  /** The count request filters exactly as the list request does, and asks
      for no page. */
  lemma CountQueryFilters(f: Form, k: Field)
    ensures var q := Api.CleanParams(Api.FilterEntries(FormFilters(f)));
      && Api.Lookup(q, FieldKey(k)) == (if Blank(FieldOf(f, k)) then None else Some(Trim(FieldOf(f, k))))
      && Api.Lookup(q, "country") == None && Api.Lookup(q, "phone") == None && Api.Lookup(q, "website") == None
      && Api.Lookup(q, "limit") == None && Api.Lookup(q, "offset") == None
  {
    FilterEntriesUnique(FormFilters(f));
    FilterOnlyQuery(Api.FilterEntries(FormFilters(f)), f, k);
  }

  /** A name no entry has is never sent. */
  lemma NoSuchName(e: seq<Api.Entry>, key: string)
    requires forall i | 0 <= i < |e| :: e[i].0 != key
    ensures Api.Lookup(Api.CleanParams(e), key) == None
  {
    if key in Api.KeptNames(e) {
      Api.KeptEntryOf(e, key);
    }
  }
}
