/** The query client (`frontend/lib/api.ts`): turns search parameters into a
    cleaned query string, builds the request URL from the configured base,
    and turns HTTP responses into records, a total or an error message. The
    network itself is a parameter: a function from URL to what came back. */
module Api {

  import opened Optional
  import opened Text
  import opened Records
  import opened FormEncoding

  // ------------------------------------------------------------- parameters

  /** A property value of the object handed to the query builder. */
  datatype Value = Undefined | Null | Str(s: string) | Num(n: int)

  /** JavaScript's `String(v)` for the values the query builder stringifies:
      text as it is, numbers in decimal. `undefined` and `null` are skipped
      before they would be stringified. */
  function Render(v: Value): string
    requires v.Str? || v.Num?
  {
    match v
    case Str(s) => s
    case Num(n) => IntToString(n)
  }

  /** One own property of the parameter object, as `Object.entries` lists it. */
  type Entry = (string, Value)

  /** The text a kept parameter is sent with. */
  function Cleaned(v: Value): string
    requires v.Str? || v.Num?
  {
    Trim(Render(v))
  }

  /** A parameter reaches the query: it is neither `undefined` nor `null` and
      its text is not blank. */
  predicate Keeps(v: Value) {
    (v.Str? || v.Num?) && !Blank(Render(v))
  }

  /** The names of the pairs. */
  function Names<V>(ps: seq<(string, V)>): set<string> {
    if ps == [] then {} else {ps[0].0} + Names(ps[1..])
  }

  /** No name occurs twice. */
  predicate UniqueNames<V>(ps: seq<(string, V)>) {
    ps == [] || (ps[0].0 !in Names(ps[1..]) && UniqueNames(ps[1..]))
  }

  lemma NamesCons(p: Param, ps: seq<Param>)
    ensures Names([p] + ps) == {p.0} + Names(ps)
    ensures UniqueNames([p] + ps) <==> p.0 !in Names(ps) && UniqueNames(ps)
  {
    assert ([p] + ps)[1..] == ps;
  }

  /** The value of the first pair named `k` (`URLSearchParams.get`). */
  function Lookup(ps: seq<Param>, k: string): (r: Option<string>)
    ensures r.Some? <==> k in Names(ps)
  {
    if ps == [] then None
    else if ps[0].0 == k then Some(ps[0].1)
    else Lookup(ps[1..], k)
  }

  /** `ps` without the pairs named `k`. */
  function Without(ps: seq<Param>, k: string): (r: seq<Param>)
    ensures Names(r) == Names(ps) - {k}
    ensures forall k' | k' != k :: Lookup(r, k') == Lookup(ps, k')
    ensures UniqueNames(ps) ==> UniqueNames(r)
  {
    if ps == [] then []
    else
      var rest := Without(ps[1..], k);
      if ps[0].0 == k then rest
      else
        NamesCons(ps[0], rest);
        [ps[0]] + rest
  }

  /** `URLSearchParams.set`: the first pair named `k` takes the value `v` and
      the later ones go; without such a pair, `(k, v)` is appended. */
  function SetParam(ps: seq<Param>, k: string, v: string): (r: seq<Param>)
    ensures Names(r) == Names(ps) + {k}
    ensures Lookup(r, k) == Some(v)
    ensures forall k' | k' != k :: Lookup(r, k') == Lookup(ps, k')
    ensures UniqueNames(ps) ==> UniqueNames(r)
    ensures k !in Names(ps) ==> r == ps + [(k, v)]
  {
    if ps == [] then [(k, v)]
    else if ps[0].0 == k then
      var rest := Without(ps[1..], k);
      NamesCons((k, v), rest);
      [(k, v)] + rest
    else
      var rest := SetParam(ps[1..], k, v);
      NamesCons(ps[0], rest);
      assert k !in Names(ps) ==> [ps[0]] + (ps[1..] + [(k, v)]) == ps + [(k, v)];
      [ps[0]] + rest
  }

  /** The names of the entries that reach the query. */
  function KeptNames(entries: seq<Entry>): set<string>
    decreases |entries|
  {
    if entries == [] then {}
    else (if Keeps(entries[0].1) then {entries[0].0} else {}) + KeptNames(entries[1..])
  }

  /** Every value is non-empty trimmed text. */
  predicate CleanValues(ps: seq<Param>) {
    forall i | 0 <= i < |ps| :: ps[i].1 != [] && IsTrimmed(ps[i].1)
  }

  /** One round of the `forEach` in `cleanParams`. */
  function CleanStep(out: seq<Param>, e: Entry): (r: seq<Param>)
    requires UniqueNames(out) && CleanValues(out)
    ensures UniqueNames(r) && CleanValues(r)
    ensures Names(r) == Names(out) + (if Keeps(e.1) then {e.0} else {})
    ensures e.0 !in Names(out) ==> r == out + (if Keeps(e.1) then [(e.0, Cleaned(e.1))] else [])
  {
    var (k, v) := e;
    if v.Undefined? || v.Null? then out
    else
      var s := Trim(Render(v));
      if s == [] then out
      else
        var r := SetParam(out, k, s);
        forall i | 0 <= i < |r| ensures r[i].1 != [] && IsTrimmed(r[i].1) {
          LookupFirst(r, i);
          if r[i].0 != k {
            assert Lookup(r, r[i].0) == Lookup(out, r[i].0);
            LookupIn(out, r[i].0);
          }
        }
        r
  }

  /** `cleanParams`: every entry in turn, skipping `undefined` and `null`,
      trimming the text of the rest and skipping it when that is empty, and
      otherwise `set`ting it. Every name appears at most once, exactly the kept
      names appear, and every value is non-empty trimmed text. */
  function CleanParams(entries: seq<Entry>): (r: seq<Param>)
    ensures UniqueNames(r)
    ensures Names(r) == KeptNames(entries)
    ensures CleanValues(r)
    decreases |entries|
  {
    if entries == [] then []
    else
      var init := entries[..|entries| - 1];
      KeptNamesSnoc(init, entries[|entries| - 1]);
      assert entries == init + [entries[|entries| - 1]];
      CleanStep(CleanParams(init), entries[|entries| - 1])
  }

  /** One more entry adds its name to the kept names exactly when it is kept. */
  lemma {:induction false} KeptNamesSnoc(init: seq<Entry>, e: Entry)
    ensures KeptNames(init + [e]) == KeptNames(init) + (if Keeps(e.1) then {e.0} else {})
    decreases |init|
  {
    if init == [] {
      assert [e][1..] == [];
    } else {
      assert (init + [e])[0] == init[0];
      assert (init + [e])[1..] == init[1..] + [e];
      KeptNamesSnoc(init[1..], e);
    }
  }

  /** With unique names the pair at index `i` is the one `Lookup` finds. */
  lemma {:induction false} LookupFirst(ps: seq<Param>, i: int)
    requires UniqueNames(ps) && 0 <= i < |ps|
    ensures Lookup(ps, ps[i].0) == Some(ps[i].1)
    decreases i
  {
    if i > 0 {
      LookupFirst(ps[1..], i - 1);
    }
  }

  /** Whatever `Lookup` finds is the value of some pair of `ps`. */
  lemma {:induction false} LookupIn(ps: seq<Param>, k: string)
    requires Lookup(ps, k).Some?
    ensures exists i | 0 <= i < |ps| :: ps[i] == (k, Lookup(ps, k).value)
    decreases |ps|
  {
    if ps[0].0 != k {
      LookupIn(ps[1..], k);
      var i :| 0 <= i < |ps[1..]| && ps[1..][i] == (k, Lookup(ps, k).value);
      assert ps[i + 1] == (k, Lookup(ps, k).value);
    } else {
      assert ps[0] == (k, Lookup(ps, k).value);
    }
  }

  /** `cleanParams` read entry by entry: the kept entries, in their order,
      each with its trimmed text. */
  function KeptInOrder(entries: seq<Entry>): seq<Param> {
    Collect(entries, KeptText)
  }

  /** The text an entry's value is sent with, or nothing. */
  function KeptText(v: Value): (r: Option<string>)
    ensures r.Some? <==> Keeps(v)
  {
    if Keeps(v) then Some(Cleaned(v)) else None
  }

  /** The pairs of the entries to which `f` gives a text, in order. */
  function Collect<V>(entries: seq<(string, V)>, f: V -> Option<string>): seq<Param> {
    if entries == [] then [] else Pick(entries[0], f) + Collect(entries[1..], f)
  }

  /** What one entry contributes to `Collect`: its pair, or nothing. */
  function Pick<V>(e: (string, V), f: V -> Option<string>): (r: seq<Param>)
    ensures |r| <= 1 && Names(r) <= {e.0}
    ensures r != [] <==> f(e.1).Some?
  {
    match f(e.1)
    case Some(t) => [(e.0, t)]
    case None => []
  }

  lemma {:induction false} CollectSnoc<V>(entries: seq<(string, V)>, e: (string, V), f: V -> Option<string>)
    ensures Collect(entries + [e], f) == Collect(entries, f) + Pick(e, f)
    decreases |entries|
  {
    if entries == [] {
      assert [e][1..] == [];
    } else {
      assert (entries + [e])[1..] == entries[1..] + [e];
      CollectSnoc(entries[1..], e, f);
    }
  }

  /** With unique names the pair `Collect` makes of entry `i` is the one
      `Lookup` finds. */
  lemma {:induction false} CollectLookup<V>(entries: seq<(string, V)>, f: V -> Option<string>, i: int)
    requires UniqueNames(entries) && 0 <= i < |entries| && f(entries[i].1).Some?
    ensures Lookup(Collect(entries, f), entries[i].0) == f(entries[i].1)
    decreases i
  {
    var rest := Collect(entries[1..], f);
    if i == 0 {
      LookupCons((entries[0].0, f(entries[0].1).value), rest, entries[0].0);
    } else {
      assert entries[1..][i - 1] == entries[i];
      CollectLookup(entries[1..], f, i - 1);
      NameAt(entries[1..], i - 1);
      LookupAppend(Pick(entries[0], f), rest, entries[i].0);
    }
  }

  lemma {:induction false} UniqueSnoc<V>(ps: seq<(string, V)>, p: (string, V))
    requires UniqueNames(ps + [p])
    ensures UniqueNames(ps) && p.0 !in Names(ps)
    decreases |ps|
  {
    if ps != [] {
      assert (ps + [p])[1..] == ps[1..] + [p];
      NamesSnoc(ps[1..], p);
      UniqueSnoc(ps[1..], p);
    }
  }

  lemma {:induction false} NamesSnoc<V>(ps: seq<(string, V)>, p: (string, V))
    ensures Names(ps + [p]) == Names(ps) + {p.0}
    decreases |ps|
  {
    if ps == [] {
      assert [p][1..] == [];
    } else {
      assert (ps + [p])[1..] == ps[1..] + [p];
      NamesSnoc(ps[1..], p);
    }
  }

  lemma {:induction false} KeptNamesWithin(entries: seq<Entry>)
    ensures KeptNames(entries) <= Names(entries)
    decreases |entries|
  {
    if entries != [] {
      KeptNamesWithin(entries[1..]);
    }
  }

  /** For an object, whose property names are distinct, `cleanParams` keeps
      the order of the properties. */
  lemma {:induction false} CleanParamsInOrder(entries: seq<Entry>)
    requires UniqueNames(entries)
    ensures CleanParams(entries) == KeptInOrder(entries)
    decreases |entries|
  {
    if entries != [] {
      var init := entries[..|entries| - 1];
      var e := entries[|entries| - 1];
      assert entries == init + [e];
      UniqueSnoc(init, e);
      CleanParamsInOrder(init);
      KeptNamesWithin(init);
      CollectSnoc(init, e, KeptText);
    }
  }

  /** A property whose value is `undefined`, `null` or blank text is left out
      of the query; any other is sent with its trimmed text. */
  lemma CleanParamsOmitsBlank(entries: seq<Entry>, i: int)
    requires UniqueNames(entries) && 0 <= i < |entries|
    ensures Keeps(entries[i].1) ==> Lookup(CleanParams(entries), entries[i].0) == Some(Cleaned(entries[i].1))
    ensures !Keeps(entries[i].1) ==> Lookup(CleanParams(entries), entries[i].0) == None
  {
    var r := CleanParams(entries);
    var k := entries[i].0;
    if Keeps(entries[i].1) {
      CleanParamsInOrder(entries);
      KeptInOrderLookup(entries, i);
    } else {
      if k in KeptNames(entries) {
        KeptEntryOf(entries, k);
        var j :| 0 <= j < |entries| && entries[j].0 == k && Keeps(entries[j].1);
        UniqueIndices(entries, i, j);
      }
    }
  }

  /** A kept entry's name is among the kept names. */
  lemma {:induction false} KeptNameOf(entries: seq<Entry>, i: int)
    requires 0 <= i < |entries| && Keeps(entries[i].1)
    ensures entries[i].0 in KeptNames(entries)
    decreases i
  {
    if i > 0 {
      KeptNameOf(entries[1..], i - 1);
    }
  }

  /** A kept name comes from a kept entry. */
  lemma {:induction false} KeptEntryOf(entries: seq<Entry>, k: string)
    requires k in KeptNames(entries)
    ensures exists i | 0 <= i < |entries| :: entries[i].0 == k && Keeps(entries[i].1)
    decreases |entries|
  {
    if !(entries[0].0 == k && Keeps(entries[0].1)) {
      KeptEntryOf(entries[1..], k);
      var j :| 0 <= j < |entries[1..]| && entries[1..][j].0 == k && Keeps(entries[1..][j].1);
      assert entries[j + 1] == entries[1..][j];
    }
  }

  /** The query is empty exactly when no entry is kept. */
  lemma CleanParamsEmpty(entries: seq<Entry>)
    ensures CleanParams(entries) == [] <==> KeptNames(entries) == {}
  {
    var r := CleanParams(entries);
    if r != [] {
      assert r[0].0 in Names(r);
    }
  }

  /** The query is empty exactly when no entry is kept. */
  lemma CleanParamsEmptyIff(entries: seq<Entry>)
    ensures CleanParams(entries) == [] <==> forall i | 0 <= i < |entries| :: !Keeps(entries[i].1)
  {
    CleanParamsEmpty(entries);
    if CleanParams(entries) == [] {
      forall i | 0 <= i < |entries| ensures !Keeps(entries[i].1) {
        if Keeps(entries[i].1) {
          KeptNameOf(entries, i);
        }
      }
    } else {
      var k :| k in KeptNames(entries);
      KeptEntryOf(entries, k);
    }
  }

  lemma {:induction false} UniqueIndices<V>(ps: seq<(string, V)>, i: int, j: int)
    requires UniqueNames(ps) && 0 <= i < |ps| && 0 <= j < |ps| && ps[i].0 == ps[j].0
    ensures i == j
    decreases |ps|
  {
    if i > 0 && j > 0 {
      UniqueIndices(ps[1..], i - 1, j - 1);
    } else if i > 0 {
      NameAt(ps[1..], i - 1);
    } else if j > 0 {
      NameAt(ps[1..], j - 1);
    }
  }

  lemma {:induction false} NameAt<V>(ps: seq<(string, V)>, i: int)
    requires 0 <= i < |ps|
    ensures ps[i].0 in Names(ps)
    decreases i
  {
    if i > 0 {
      NameAt(ps[1..], i - 1);
    }
  }

  lemma LookupCons(p: Param, ps: seq<Param>, k: string)
    ensures Lookup([p] + ps, k) == if p.0 == k then Some(p.1) else Lookup(ps, k)
  {
    assert ([p] + ps)[1..] == ps;
  }

  lemma LookupAppend(head: seq<Param>, rest: seq<Param>, k: string)
    requires |head| <= 1 && k !in Names(head)
    ensures Lookup(head + rest, k) == Lookup(rest, k)
  {
    if head != [] {
      assert (head + rest)[1..] == rest;
    } else {
      assert head + rest == rest;
    }
  }

  lemma KeptInOrderLookup(entries: seq<Entry>, i: int)
    requires UniqueNames(entries) && 0 <= i < |entries| && Keeps(entries[i].1)
    ensures Lookup(KeptInOrder(entries), entries[i].0) == Some(Cleaned(entries[i].1))
  {
    CollectLookup(entries, KeptText, i);
  }

  // ---------------------------------------------------------- search types

  /** The filter properties of `SearchParams`, each optional. */
  datatype FilterParams = FilterParams(
    name: Value, city: Value, region: Value, postalCode: Value,
    country: Value, phone: Value, website: Value)

  /** `SearchParams`: the filters plus paging and sorting. */
  datatype SearchParams = SearchParams(
    filters: FilterParams, limit: int, offset: int, sortBy: Value, sortDir: Value)

  /** `Object.entries` of a filter object, in declaration order. */
  function FilterEntries(f: FilterParams): seq<Entry> {
    [("name", f.name), ("city", f.city), ("region", f.region), ("postal_code", f.postalCode),
     ("country", f.country), ("phone", f.phone), ("website", f.website)]
  }

  /** `Object.entries` of a list request's parameter object. */
  function SearchEntries(p: SearchParams): seq<Entry> {
    FilterEntries(p.filters)
    + [("limit", Num(p.limit)), ("offset", Num(p.offset)), ("sort_by", p.sortBy), ("sort_dir", p.sortDir)]
  }

  // ------------------------------------------------------------------ URLs

  /** `base.replace(/\/$/, "")`: one trailing slash, if any, comes off. */
  function StripTrailingSlash(base: string): (r: string)
    ensures base == r || base == r + "/"
    ensures |base| > 0 && base[|base| - 1] == '/' ==> base == r + "/"
  {
    if |base| > 0 && base[|base| - 1] == '/' then base[..|base| - 1] else base
  }

  /** Exactly one slash is removed, even when more precede it. */
  lemma StripOneSlash(b: string)
    ensures StripTrailingSlash(b + "/") == b
    ensures |b| == 0 || b[|b| - 1] != '/' ==> StripTrailingSlash(b) == b
  {
  }

  /** The two resources the client reads. */
  datatype Endpoint = ListEndpoint | CountEndpoint

  function PathOf(e: Endpoint): string {
    match e
    case ListEndpoint => "/funeral-homes"
    case CountEndpoint => "/funeral-homes/count"
  }

  /** A request URL in three parts: the base, the resource path and the query. */
  datatype Url = Url(base: string, path: string, query: string) {
    /** The URL as text. */
    function Href(): string {
      base + path + "?" + query
    }
  }

  const MissingBaseMessage := "NEXT_PUBLIC_API_BASE_URL is not set"

  /** The URL of a request, or the configuration error when the base URL is
      unset or empty (`!base`). The query carries exactly the cleaned
      parameters: the server's parser reads them back unchanged. */
  function RequestUrl(base: Option<string>, e: Endpoint, entries: seq<Entry>): (r: Result<Url, string>)
    ensures r.Failure? <==> base.None? || base.value == ""
    ensures r.Failure? ==> r.error == MissingBaseMessage
    ensures r.Success? ==> r.value.base == StripTrailingSlash(base.value) && r.value.path == PathOf(e)
    ensures r.Success? ==> ParseQuery(r.value.query) == Some(CleanParams(entries))
  {
    if base.None? || base.value == "" then Failure(MissingBaseMessage)
    else
      var ps := CleanParams(entries);
      ParseQueryOfSerialize(ps);
      Success(Url(StripTrailingSlash(base.value), PathOf(e), Serialize(ps)))
  }

  // ------------------------------------------------------------- responses

  /** What a completed HTTP exchange yields: the status line, the body read as
      text (`None` when reading it fails) and the body read as JSON (a parse
      error message on failure). */
  datatype Response<J> = Response(status: int, statusText: string, text: Option<string>, json: Result<J, string>)

  /** A request either reaches the server or fails in transport. */
  datatype Transport<J> = Delivered(response: Response<J>) | NetworkError(message: string)

  /** `res.ok`. */
  predicate IsOk(status: int) {
    200 <= status <= 299
  }

  /** The detail of an HTTP error: the body text when it is non-empty, the
      status text otherwise (`text || res.statusText`, where a failed body
      read counts as empty). */
  function ErrorDetail(text: Option<string>, statusText: string): (d: string)
    ensures text.Some? && text.value != "" ==> d == text.value
    ensures text.None? || text.value == "" ==> d == statusText
  {
    var t := text.GetOr("");
    if t != "" then t else statusText
  }

  /** The message of the `Error` thrown for a non-OK response. */
  function ErrorMessage(status: int, text: Option<string>, statusText: string): string {
    "API error " + IntToString(status) + ": " + ErrorDetail(text, statusText)
  }

  const ErrorPrefix := "API error "

  /** Reads a message of the shape `API error <status>: <detail>` back. */
  function ParseErrorMessage(m: string): Option<(int, string)> {
    if !StartsWith(m, ErrorPrefix) then None
    else
      var (code, rest) := SplitFirst(m[|ErrorPrefix|..], ':');
      match (ParseInt(code), rest)
      case (Some(status), Some(r)) =>
        if StartsWith(r, " ") then Some((status, r[1..])) else None
      case _ => None
  }

  /** The status and the detail can be read back from an error message. */
  lemma ErrorMessageParses(status: int, text: Option<string>, statusText: string)
    ensures ParseErrorMessage(ErrorMessage(status, text, statusText))
         == Some((status, ErrorDetail(text, statusText)))
  {
    var code := IntToString(status);
    var detail := ErrorDetail(text, statusText);
    var m := ErrorMessage(status, text, statusText);
    assert m[|ErrorPrefix|..] == code + [':'] + (" " + detail);
    IntToStringExcludesColon(status);
    SplitFirstOf(code, ':', " " + detail);
    ParseIntToString(status);
    assert (" " + detail)[1..] == detail;
  }

  lemma IntToStringExcludesColon(n: int)
    ensures Excludes(IntToString(n), ':')
  {
    var s := IntToString(n);
    if n < 0 {
      assert forall i | 1 <= i < |s| :: s[i] == NatToString(-n)[i - 1];
    }
  }

  /** A 404 answered with the body `not found`. */
  lemma NotFoundMessage()
    ensures ErrorMessage(404, Some("not found"), "Not Found") == "API error 404: not found"
  {
    assert NatToString(4) == "4";
    assert NatToString(40) == "40";
    assert NatToString(404) == "404";
  }

  /** The records of a list response, or the message of what went wrong.
      Only a delivered response with a 2xx status and a parseable body
      succeeds. */
  function HandleList(t: Transport<seq<FuneralHome>>): (r: Result<seq<FuneralHome>, string>)
    ensures r.Success? <==> t.Delivered? && IsOk(t.response.status) && t.response.json.Success?
    ensures r.Success? ==> r.value == t.response.json.value
    ensures t.NetworkError? ==> r.error == t.message
    ensures t.Delivered? && !IsOk(t.response.status)
         ==> r.error == ErrorMessage(t.response.status, t.response.text, t.response.statusText)
  {
    match t
    case NetworkError(m) => Failure(m)
    case Delivered(res) =>
      if !IsOk(res.status) then Failure(ErrorMessage(res.status, res.text, res.statusText))
      else res.json
  }

  /** The JSON object of a count response: `total` may be missing or `null`. */
  datatype CountBody = CountBody(total: Option<int>)

  /** The total of a count response (`Number(data.total ?? 0)`), or the
      message of what went wrong. */
  function HandleCount(t: Transport<CountBody>): (r: Result<int, string>)
    ensures r.Success? <==> t.Delivered? && IsOk(t.response.status) && t.response.json.Success?
    ensures r.Success? && t.response.json.value.total.None? ==> r.value == 0
    ensures r.Success? && t.response.json.value.total.Some? ==> r.value == t.response.json.value.total.value
    ensures t.NetworkError? ==> r.error == t.message
    ensures t.Delivered? && !IsOk(t.response.status)
         ==> r.error == ErrorMessage(t.response.status, t.response.text, t.response.statusText)
  {
    match t
    case NetworkError(m) => Failure(m)
    case Delivered(res) =>
      if !IsOk(res.status) then Failure(ErrorMessage(res.status, res.text, res.statusText))
      else match res.json
        case Failure(m) => Failure(m)
        case Success(body) => Success(body.total.GetOr(0))
  }

  /** `fetchFuneralHomes`: the network is the function from the URL requested
      to what came back. */
  function FetchFuneralHomes(base: Option<string>, p: SearchParams, network: string -> Transport<seq<FuneralHome>>)
    : Result<seq<FuneralHome>, string>
  {
    match RequestUrl(base, ListEndpoint, SearchEntries(p))
    case Failure(e) => Failure(e)
    case Success(url) => HandleList(network(url.Href()))
  }

  /** `fetchFuneralHomesCount`. */
  function FetchFuneralHomesCount(base: Option<string>, f: FilterParams, network: string -> Transport<CountBody>)
    : Result<int, string>
  {
    match RequestUrl(base, CountEndpoint, FilterEntries(f))
    case Failure(e) => Failure(e)
    case Success(url) => HandleCount(network(url.Href()))
  }

  /** Without a base URL both calls fail with the configuration error whatever
      the network would have answered: no request is made. */
  lemma MissingBaseFailsBeforeRequest(
    base: Option<string>, p: SearchParams, f: FilterParams,
    n1: string -> Transport<seq<FuneralHome>>, n2: string -> Transport<seq<FuneralHome>>,
    c1: string -> Transport<CountBody>, c2: string -> Transport<CountBody>)
    requires base.None? || base.value == ""
    ensures FetchFuneralHomes(base, p, n1) == FetchFuneralHomes(base, p, n2) == Failure(MissingBaseMessage)
    ensures FetchFuneralHomesCount(base, f, c1) == FetchFuneralHomesCount(base, f, c2) == Failure(MissingBaseMessage)
  {
  }

  /** With a base URL, the list call asks the network exactly once, at the
      URL whose query decodes to the cleaned parameters, and reports its
      answer. */
  lemma FetchAsksNetwork(base: string, p: SearchParams, network: string -> Transport<seq<FuneralHome>>)
    requires base != ""
    ensures var url := RequestUrl(Some(base), ListEndpoint, SearchEntries(p)).value;
      && url.base == StripTrailingSlash(base) && url.path == "/funeral-homes"
      && ParseQuery(url.query) == Some(CleanParams(SearchEntries(p)))
      && FetchFuneralHomes(Some(base), p, network) == HandleList(network(url.Href()))
  {
  }

  /** With a base URL, the count call asks the network exactly once, at the
      count URL whose query decodes to the cleaned filters, and reports its
      total. */
  lemma FetchCountAsksNetwork(base: string, f: FilterParams, network: string -> Transport<CountBody>)
    requires base != ""
    ensures var url := RequestUrl(Some(base), CountEndpoint, FilterEntries(f)).value;
      && url.base == StripTrailingSlash(base) && url.path == "/funeral-homes/count"
      && ParseQuery(url.query) == Some(CleanParams(FilterEntries(f)))
      && FetchFuneralHomesCount(Some(base), f, network) == HandleCount(network(url.Href()))
  {
  }
}
