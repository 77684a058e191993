/** The helpers a result card of the search page (`frontend/app/page.tsx`)
    is built from: optional text formatting, the two address lines, the
    website link, and the page size. */
module View {

  import opened Optional
  import opened Text
  import opened Records

  /** `PAGE_SIZE`. */
  const PageSize := 15

  // ------------------------------------------------------------ card helpers

  /** `fmt`: absent and blank text become `null`; anything else is trimmed. */
  function Fmt(v: Option<string>): (r: Option<string>)
    ensures r.None? <==> v.None? || Blank(v.value)
    ensures r.Some? ==> r.value != [] && IsTrimmed(r.value) && r.value == Trim(v.value)
  {
    var s := Trim(v.GetOr(""));
    if |s| > 0 then Some(s) else None
  }

  /** The two address lines of a card. */
  datatype Address = Address(line1: Option<string>, line2: Option<string>)

  /** The present values, in order (`filter(Boolean)` over `fmt` results). */
  function Present(xs: seq<Option<string>>): (r: seq<string>)
    ensures |r| <= |xs|
  {
    if xs == [] then []
    else (if xs[0].Some? && xs[0].value != "" then [xs[0].value] else []) + Present(xs[1..])
  }

  function Part(x: Option<string>): seq<string> {
    if x.Some? && x.value != "" then [x.value] else []
  }

  lemma PresentOfThree(c: Option<string>, g: Option<string>, p: Option<string>)
    ensures Present([c, g, p]) == Part(c) + Part(g) + Part(p)
  {
    var xs := [c, g, p];
    assert xs[1..] == [g, p] && xs[1..][1..] == [p] && xs[1..][1..][1..] == [];
    assert Present([p]) == Part(p) + Present([]);
  }

  /** No part is present exactly when each is absent or empty. */
  lemma PartsEmpty(c: Option<string>, g: Option<string>, p: Option<string>)
    ensures |Present([c, g, p])| == 0
            <==> (c.None? || c.value == "") && (g.None? || g.value == "") && (p.None? || p.value == "")
  {
    PresentOfThree(c, g, p);
  }

  /** `buildAddress`: the street on the first line; city, region and postal
      code, those that are not blank, trimmed and joined by `", "`, on the
      second, which is absent when all three are blank. */
  function BuildAddress(r: FuneralHome): (a: Address)
    ensures a.line1 == Fmt(r.street)
    ensures a.line2.None? <==> Fmt(r.city).None? && Fmt(r.region).None? && Fmt(r.postalCode).None?
  {
    var c, g, p := Fmt(r.city), Fmt(r.region), Fmt(r.postalCode);
    var parts := Present([c, g, p]);
    PartsEmpty(c, g, p);
    Address(Fmt(r.street), if |parts| > 0 then Some(Join(parts, ", ")) else None)
  }

  /** The second address line spelled out case by case, from the formatted
      city, region and postal code. */
  function Line2Table(city: Option<string>, region: Option<string>, postal: Option<string>): Option<string> {
    match (city, region, postal)
    case (None, None, None) => None
    case (Some(c), None, None) => Some(c)
    case (None, Some(g), None) => Some(g)
    case (None, None, Some(p)) => Some(p)
    case (Some(c), Some(g), None) => Some(c + ", " + g)
    case (Some(c), None, Some(p)) => Some(c + ", " + p)
    case (None, Some(g), Some(p)) => Some(g + ", " + p)
    case (Some(c), Some(g), Some(p)) => Some(c + ", " + g + ", " + p)
  }

  /** `buildAddress` agrees with the table: the non-blank parts in the order
      city, region, postal code, with no empty segment between the commas. */
  lemma BuildAddressLine2(r: FuneralHome)
    ensures BuildAddress(r).line2 == Line2Table(Fmt(r.city), Fmt(r.region), Fmt(r.postalCode))
  {
    var c, g, p := Fmt(r.city), Fmt(r.region), Fmt(r.postalCode);
    var parts := Present([c, g, p]);
    assert BuildAddress(r).line2 == (if |parts| > 0 then Some(Join(parts, ", ")) else None);
    JoinMatchesTable(c, g, p);
  }

  /** Joining the present parts by `", "` is the table, for parts that are
      not empty strings. */
  lemma JoinMatchesTable(c: Option<string>, g: Option<string>, p: Option<string>)
    requires c.Some? ==> c.value != ""
    requires g.Some? ==> g.value != ""
    requires p.Some? ==> p.value != ""
    ensures var parts := Present([c, g, p]);
      (if |parts| > 0 then Some(Join(parts, ", ")) else None) == Line2Table(c, g, p)
  {
    PresentOfThree(c, g, p);
    match (c, g, p)
    case (None, None, None) =>
    case (Some(x), None, None) =>
      assert Present([c, g, p]) == [x];
    case (None, Some(x), None) =>
      assert Present([c, g, p]) == [x];
    case (None, None, Some(x)) =>
      assert Present([c, g, p]) == [x];
    case (Some(x), Some(y), None) =>
      JoinTwo(x, y);
    case (Some(x), None, Some(y)) =>
      JoinTwo(x, y);
    case (None, Some(x), Some(y)) =>
      JoinTwo(x, y);
    case (Some(x), Some(y), Some(z)) =>
      JoinTwo(y, z);
      assert [x, y, z][1..] == [y, z];
      assert x + ", " + (y + ", " + z) == x + ", " + y + ", " + z;
  }

  lemma JoinTwo(x: string, y: string)
    ensures Join([x, y], ", ") == x + ", " + y
  {
    assert [x, y][1..] == [y];
  }

  /** A card with street, city and region but no postal code (such as
      `12 Oak St` in `Denver`, `CO`) shows the street on the first line and
      `city, region` on the second. */
  lemma BuildAddressWithoutPostal(r: FuneralHome, street: string, city: string, region: string)
    requires street != "" && IsTrimmed(street) && city != "" && IsTrimmed(city)
    requires region != "" && IsTrimmed(region)
    requires r.street == Some(street) && r.city == Some(city) && r.region == Some(region)
    requires r.postalCode.None?
    ensures BuildAddress(r) == Address(Some(street), Some(city + ", " + region))
  {
    FmtOfTrimmed(city);
    FmtOfTrimmed(region);
    BuildAddressLine2(r);
    FmtOfTrimmed(street);
  }

  /** Text that is already trimmed and non-empty formats to itself. */
  lemma FmtOfTrimmed(s: string)
    requires s != "" && IsTrimmed(s)
    ensures Fmt(Some(s)) == Some(s)
  {
    TrimOfTrimmed(s);
  }

  /** A record with every address field null shows no address at all. */
  lemma BuildAddressEmpty(r: FuneralHome)
    requires r.street.None? && r.city.None? && r.region.None? && r.postalCode.None?
    ensures BuildAddress(r) == Address(None, None)
  {
  }

  /** The URL already names its scheme. */
  predicate HasScheme(u: string) {
    StartsWith(u, "http://") || StartsWith(u, "https://")
  }

  /** `normalizeWebsite`: blank gives `""`; a trimmed value that starts with
      `http://` or `https://` is kept; any other gets `https://` in front. */
  function NormalizeWebsite(url: string): (r: string)
    ensures r == "" <==> Blank(url)
    ensures !Blank(url) && HasScheme(Trim(url)) ==> r == Trim(url)
    ensures !Blank(url) && !HasScheme(Trim(url)) ==> r == "https://" + Trim(url)
    ensures r == "" || HasScheme(r)
  {
    var u := Trim(url);
    if u == "" then ""
    else if HasScheme(u) then u
    else
      assert StartsWith("https://" + u, "https://") by {
        assert ("https://" + u)[..8] == "https://";
      }
      "https://" + u
  }

  /** Normalising a normalised link changes nothing. */
  lemma NormalizeWebsiteIdempotent(url: string)
    ensures NormalizeWebsite(NormalizeWebsite(url)) == NormalizeWebsite(url)
  {
    var r := NormalizeWebsite(url);
    if r != "" {
      var u := Trim(url);
      if !HasScheme(u) {
        VisibleNotSpace('h');
        PrefixKeepsTrimmed("https://", u);
      }
      NormalizedIsFixed(r);
    }
  }

  /** Text with no white space at its ends stays so with a prefix that
      starts with a non-space character. */
  lemma PrefixKeepsTrimmed(prefix: string, u: string)
    requires prefix != [] && !IsSpace(prefix[0]) && u != [] && IsTrimmed(u)
    ensures IsTrimmed(prefix + u)
  {
    assert (prefix + u)[0] == prefix[0];
    assert (prefix + u)[|prefix + u| - 1] == u[|u| - 1];
  }

  /** A trimmed link that names its scheme is its own normal form. */
  lemma NormalizedIsFixed(r: string)
    requires r != "" && IsTrimmed(r) && HasScheme(r)
    ensures NormalizeWebsite(r) == r
  {
    TrimOfTrimmed(r);
  }

  /** The two examples: a bare host gains `https://`; a URL with `http://`
      is kept. */
  lemma NormalizeWebsiteExamples(bare: string, full: string)
    requires bare == "example.org" && full == "http://example.org"
    ensures NormalizeWebsite(bare) == "https://" + bare
    ensures NormalizeWebsite(full) == full
  {
    VisibleEnds(bare);
    VisibleEnds(full);
    TrimOfTrimmed(bare);
    TrimOfTrimmed(full);
    assert bare[..7] != "http://" && bare[..8] != "https://";
    assert full[..7] == "http://";
  }
}
