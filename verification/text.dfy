/** String helpers shared by the client and the server: white space and
    trimming, ASCII lower-casing, substring search, joining and decimal
    rendering of integers. */
module Text {

  import opened Optional

  /** The white space this model trims: the characters that JavaScript's
      `trim()` and Python's `strip()` both remove. JavaScript also removes
      U+FEFF and Python also removes U+001C to U+001F and U+0085; those are
      treated as text here. */
  const SpaceChars: string :=
    " \t\n\r\U{B}\U{C}\U{A0}\U{1680}"
    + "\U{2000}\U{2001}\U{2002}\U{2003}\U{2004}\U{2005}\U{2006}\U{2007}\U{2008}\U{2009}\U{200A}"
    + "\U{2028}\U{2029}\U{202F}\U{205F}\U{3000}"

  predicate IsSpace(c: char) {
    SpaceIn(c, SpaceChars)
  }

  /** `c` is one of `cs`. */
  predicate SpaceIn(c: char, cs: string)
    decreases |cs|
  {
    cs != [] && (cs[0] == c || SpaceIn(c, cs[1..]))
  }

  lemma {:induction false} NotSpaceIn(c: char, cs: string)
    requires forall i | 0 <= i < |cs| :: cs[i] != c
    ensures !SpaceIn(c, cs)
    decreases |cs|
  {
    if cs != [] {
      NotSpaceIn(c, cs[1..]);
    }
  }

  /** Visible ASCII characters (letters, digits, punctuation) are not white
      space. */
  lemma VisibleNotSpace(c: char)
    requires '!' <= c <= '~'
    ensures !IsSpace(c)
  {
    NotSpaceIn(c, SpaceChars);
  }

  /** Text that begins and ends with a visible ASCII character is trimmed. */
  lemma VisibleEnds(s: string)
    requires s != [] && '!' <= s[0] <= '~' && '!' <= s[|s| - 1] <= '~'
    ensures IsTrimmed(s)
  {
    VisibleNotSpace(s[0]);
    VisibleNotSpace(s[|s| - 1]);
  }

  /** Every character of `s` is white space (this includes the empty string). */
  predicate Blank(s: string) {
    forall i | 0 <= i < |s| :: IsSpace(s[i])
  }

  /** Neither the first nor the last character is white space. */
  predicate IsTrimmed(s: string) {
    s == [] || (!IsSpace(s[0]) && !IsSpace(s[|s| - 1]))
  }

  /** `s` without its leading white space. */
  function TrimStart(s: string): (r: string)
    ensures |r| <= |s| && r == s[|s| - |r|..]
    ensures Blank(s[..|s| - |r|])
    ensures r != [] ==> !IsSpace(r[0])
  {
    if s != [] && IsSpace(s[0]) then
      var r := TrimStart(s[1..]);
      assert s[..|s| - |r|] == [s[0]] + s[1..][..|s| - 1 - |r|];
      r
    else s
  }

  /** `s` without its trailing white space. */
  function TrimEnd(s: string): (r: string)
    ensures |r| <= |s| && r == s[..|r|]
    ensures Blank(s[|r|..])
    ensures r != [] ==> !IsSpace(r[|r| - 1])
  {
    if s != [] && IsSpace(s[|s| - 1]) then
      var r := TrimEnd(s[..|s| - 1]);
      assert s[|r|..] == s[..|s| - 1][|r|..] + [s[|s| - 1]];
      r
    else s
  }

  /** `r` is `s` with only white space removed: `i` leading characters and
      the rest after `r`. */
  predicate TrimsTo(s: string, i: int, r: string) {
    0 <= i <= |s| - |r| && r == s[i..i + |r|] && Blank(s[..i]) && Blank(s[i + |r|..])
  }

  /** `s` without leading and trailing white space in the sense of
      `SpaceChars`: JavaScript's `trim()` and Python's `strip()` restricted
      to the white space they share. The result has no white space at either end and is
      empty exactly when `s` is blank; `TrimRemovesOnlyEnds` and `TrimUnique`
      say it is the middle of `s`. */
  function Trim(s: string): (r: string)
    ensures IsTrimmed(r)
    ensures r == [] <==> Blank(s)
  {
    TrimEmptyIffBlank(s);
    TrimmedAt(TrimStart(s), TrimEnd(TrimStart(s)));
    TrimEnd(TrimStart(s))
  }

  /** A prefix of text that starts with a non-space character, itself ending
      with a non-space character, has no white space at either end. */
  lemma TrimmedAt(t: string, r: string)
    requires t != [] ==> !IsSpace(t[0])
    requires |r| <= |t| && r == t[..|r|] && (r != [] ==> !IsSpace(r[|r| - 1]))
    ensures IsTrimmed(r)
  {
    if r != [] {
      assert r[0] == t[0];
    }
  }

  /** What `Trim` removes is white space, from the two ends only. */
  lemma TrimRemovesOnlyEnds(s: string)
    ensures exists i :: TrimsTo(s, i, Trim(s))
  {
    TrimSplits(s);
    assert TrimsTo(s, |s| - |TrimStart(s)|, Trim(s));
  }

  lemma TrimSplits(s: string)
    ensures TrimsTo(s, |s| - |TrimStart(s)|, TrimEnd(TrimStart(s)))
  {
    SplitsAt(s, TrimStart(s), TrimEnd(TrimStart(s)));
  }

  /** A blank head, then `t`; and `t` is `r` then a blank tail: so `s` trims
      to `r`. */
  lemma SplitsAt(s: string, t: string, r: string)
    requires |t| <= |s| && t == s[|s| - |t|..] && Blank(s[..|s| - |t|])
    requires |r| <= |t| && r == t[..|r|] && Blank(t[|r|..])
    ensures TrimsTo(s, |s| - |t|, r)
  {
    var i := |s| - |t|;
    assert r == s[i..i + |r|];
    assert s[i + |r|..] == t[|r|..];
  }

  lemma TrimEmptyIffBlank(s: string)
    ensures TrimEnd(TrimStart(s)) == [] <==> Blank(s)
  {
    if Blank(s) {
      BlankTrimStart(s);
    } else {
      TrimOfNonBlank(s);
    }
  }

  lemma {:induction false} BlankTrimStart(s: string)
    requires Blank(s)
    ensures TrimStart(s) == []
    decreases |s|
  {
    if s != [] {
      assert IsSpace(s[0]);
      assert Blank(s[1..]) by {
        forall j | 0 <= j < |s| - 1 ensures IsSpace(s[1..][j]) {
          assert s[1..][j] == s[j + 1];
        }
      }
      BlankTrimStart(s[1..]);
    }
  }

  lemma TrimOfNonBlank(s: string)
    requires !Blank(s)
    ensures TrimEnd(TrimStart(s)) != []
  {
    var t := TrimStart(s);
    var i := |s| - |t|;
    if TrimEnd(t) == [] {
      assert t[0..] == t;
      assert s == s[..i] + t;
      BlankConcat(s[..i], t);
    }
  }

  /** Two blank strings make a blank string. */
  lemma BlankConcat(a: string, b: string)
    requires Blank(a) && Blank(b)
    ensures Blank(a + b)
  {
    forall j | 0 <= j < |a + b| ensures IsSpace((a + b)[j]) {
      if j < |a| { assert (a + b)[j] == a[j]; } else { assert (a + b)[j] == b[j - |a|]; }
    }
  }

  lemma {:induction false} TrimStartSkipsBlank(a: string, u: string)
    requires Blank(a)
    requires u == [] || !IsSpace(u[0])
    ensures TrimStart(a + u) == u
    decreases |a|
  {
    if a != [] {
      assert (a + u)[1..] == a[1..] + u;
      TrimStartSkipsBlank(a[1..], u);
    } else {
      assert a + u == u;
    }
  }

  lemma {:induction false} TrimEndSkipsBlank(u: string, b: string)
    requires Blank(b)
    requires u == [] || !IsSpace(u[|u| - 1])
    ensures TrimEnd(u + b) == u
    decreases |b|
  {
    if b != [] {
      assert (u + b)[..|u + b| - 1] == u + b[..|b| - 1];
      TrimEndSkipsBlank(u, b[..|b| - 1]);
    } else {
      assert u + b == u;
    }
  }

  /** Trimming has exactly one answer: whenever `s` splits into blank, trimmed,
      blank, the trimmed middle is `Trim(s)`. */
  lemma TrimUnique(s: string, a: string, t: string, b: string)
    requires s == a + t + b && Blank(a) && Blank(b) && IsTrimmed(t)
    ensures Trim(s) == t
  {
    if t == [] {
      assert Blank(s) by {
        forall k | 0 <= k < |s| ensures IsSpace(s[k]) {
          if k < |a| { assert s[k] == a[k]; } else { assert s[k] == b[k - |a|]; }
        }
      }
    } else {
      assert s == a + (t + b);
      TrimStartSkipsBlank(a, t + b);
      TrimEndSkipsBlank(t, b);
    }
  }

  /** A string with no white space at either end is its own trim. */
  lemma TrimOfTrimmed(s: string)
    requires IsTrimmed(s)
    ensures Trim(s) == s
  {
    assert s == [] + s + [];
    TrimUnique(s, [], s, []);
  }

  /** Trimming twice is trimming once. */
  lemma TrimIdempotent(s: string)
    ensures Trim(Trim(s)) == Trim(s)
  {
    TrimOfTrimmed(Trim(s));
  }

  /** ASCII lower-casing of one character, as SQLite's built-in `lower()`
      does. Python's `str.lower()` also folds non-ASCII capitals; that
      folding is not modelled. */
  function LowerChar(c: char): (r: char)
    ensures 'A' <= c <= 'Z' ==> r as int == c as int + 32
    ensures !('A' <= c <= 'Z') ==> r == c
  {
    if 'A' <= c <= 'Z' then (c as int + 32) as char else c
  }

  /** `s` with every ASCII capital replaced by its small letter. */
  function Lower(s: string): (r: string)
    ensures |r| == |s|
    ensures forall i | 0 <= i < |s| :: r[i] == LowerChar(s[i])
  {
    seq(|s|, i requires 0 <= i < |s| => LowerChar(s[i]))
  }

  /** `p` is a prefix of `s` (`startsWith`). */
  predicate StartsWith(s: string, p: string) {
    |p| <= |s| && s[..|p|] == p
  }

  /** `needle` occurs somewhere in `s` as a contiguous substring. */
  predicate Contains(s: string, needle: string) {
    exists i | 0 <= i <= |s| - |needle| :: OccursAt(s, needle, i)
  }

  /** `needle` occurs in `s` starting at index `i`. */
  predicate OccursAt(s: string, needle: string, i: int) {
    0 <= i <= |s| - |needle| && s[i..i + |needle|] == needle
  }

  /** `c` does not occur in `s`. */
  predicate Excludes(s: string, c: char) {
    forall i | 0 <= i < |s| :: s[i] != c
  }

  /** The text before the first `sep` and, if there is one, the text after it. */
  function SplitFirst(s: string, sep: char): (string, Option<string>)
    decreases |s|
  {
    if s == [] then ("", None)
    else if s[0] == sep then ("", Some(s[1..]))
    else var (n, v) := SplitFirst(s[1..], sep); ([s[0]] + n, v)
  }

  lemma {:induction false} SplitFirstOf(n: string, sep: char, v: string)
    requires Excludes(n, sep)
    ensures SplitFirst(n + [sep] + v, sep) == (n, Some(v))
    decreases |n|
  {
    var w := n + [sep] + v;
    if n == [] {
      assert w[1..] == v;
    } else {
      assert w[1..] == n[1..] + [sep] + v;
      SplitFirstOf(n[1..], sep, v);
      assert [n[0]] + n[1..] == n;
    }
  }

  /** The parts with `sep` between consecutive ones (`Array.prototype.join`). */
  function Join(parts: seq<string>, sep: string): string {
    if |parts| == 0 then ""
    else if |parts| == 1 then parts[0]
    else parts[0] + sep + Join(parts[1..], sep)
  }

  predicate IsDigit(c: char) {
    '0' <= c <= '9'
  }

  function DigitChar(d: nat): (c: char)
    requires d < 10
    ensures IsDigit(c) && DigitValue(c) == d
  {
    ('0' as int + d) as char
  }

  /** The decimal digits of `n`, most significant first, without leading zeros. */
  function NatToString(n: nat): (r: string)
    ensures |r| >= 1
    ensures AllDigits(r)
    ensures |r| > 1 ==> r[0] != '0'
    decreases n
  {
    if n < 10 then [DigitChar(n)] else NatToString(n / 10) + [DigitChar(n % 10)]
  }

  /** `String(n)` for an integer-valued number. */
  function IntToString(n: int): string {
    if n < 0 then "-" + NatToString(-n) else NatToString(n)
  }

  predicate AllDigits(s: string) {
    forall i | 0 <= i < |s| :: IsDigit(s[i])
  }

  function DigitValue(c: char): nat
    requires IsDigit(c)
  {
    c as int - '0' as int
  }

  /** The value of a run of decimal digits. */
  function DigitsValue(s: string): nat
    requires AllDigits(s)
    decreases |s|
  {
    if s == [] then 0 else DigitsValue(s[..|s| - 1]) * 10 + DigitValue(s[|s| - 1])
  }

  /** Reading a decimal integer the way the server's query binding does: an
      optional minus sign followed by at least one digit. */
  function ParseInt(s: string): (r: Option<int>)
  {
    if |s| >= 2 && s[0] == '-' && AllDigits(s[1..]) then
      var d: int := DigitsValue(s[1..]);
      Some(-d)
    else if |s| >= 1 && AllDigits(s) then
      var v: int := DigitsValue(s);
      Some(v)
    else
      None
  }

  lemma {:induction false} DigitsValueOfNat(n: nat)
    ensures DigitsValue(NatToString(n)) == n
    decreases n
  {
    if n >= 10 {
      var s := NatToString(n);
      assert s[..|s| - 1] == NatToString(n / 10);
      DigitsValueOfNat(n / 10);
    }
  }

  /** The decimal text of an integer is non-empty and has no white space at
      either end, so trimming leaves it alone. */
  lemma IntToStringTrimmed(n: int)
    ensures IntToString(n) != [] && IsTrimmed(IntToString(n))
    ensures Trim(IntToString(n)) == IntToString(n)
  {
    var s := IntToString(n);
    VisibleNotSpace(s[0]);
    VisibleNotSpace(s[|s| - 1]);
    TrimOfTrimmed(s);
  }

  /** Decimal rendering and parsing are inverse. */
  lemma ParseIntToString(n: int)
    ensures ParseInt(IntToString(n)) == Some(n)
  {
    var s := IntToString(n);
    if n < 0 {
      assert s[0] == '-' && s[1..] == NatToString(-n);
      DigitsValueOfNat(-n);
    } else {
      assert s == NatToString(n) && IsDigit(s[0]) && s[0] != '-';
      DigitsValueOfNat(n);
    }
  }
}
