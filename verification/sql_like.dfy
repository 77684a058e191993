/** SQL `LIKE` as the server's filters use it: `%` matches any run of
    characters, `_` matches exactly one, and there is no escape character.
    Both sides are lower-cased before matching, so the matcher compares
    characters exactly (SQLite's own ASCII case folding in `LIKE` adds
    nothing once both sides are lower case). */
module SqlLike {

  import opened Text

  /** `s LIKE p`. */
  predicate Like(s: string, p: string)
    decreases |s| + |p|
  {
    if p == [] then s == []
    else if p[0] == '%' then Like(s, p[1..]) || (s != [] && Like(s[1..], p))
    else s != [] && (p[0] == '_' || p[0] == s[0]) && Like(s[1..], p[1..])
  }

  /** `q` holds neither wildcard, so it stands for itself in a pattern. */
  predicate NoWildcards(q: string) {
    forall i | 0 <= i < |q| :: q[i] != '%' && q[i] != '_'
  }

  /** The pattern `%` matches everything. */
  lemma {:induction false} LikeAnything(s: string)
    ensures Like(s, "%")
    decreases |s|
  {
    assert "%"[1..] == [];
    if s != [] {
      LikeAnything(s[1..]);
    }
  }

  /** A wildcard-free `q` followed by `%` matches exactly the strings that
      start with `q`. */
  lemma {:induction false} LikePrefix(s: string, q: string)
    requires NoWildcards(q)
    ensures Like(s, q + "%") <==> StartsWith(s, q)
    decreases |q|
  {
    if q == [] {
      assert q + "%" == "%";
      LikeAnything(s);
    } else {
      assert (q + "%")[1..] == q[1..] + "%";
      assert (q + "%")[0] == q[0];
      if s != [] {
        LikePrefix(s[1..], q[1..]);
        assert StartsWith(s, q) <==> s[0] == q[0] && StartsWith(s[1..], q[1..]) by {
          if |q| <= |s| {
            assert s[..|q|] == [s[0]] + s[1..][..|q| - 1];
            assert q == [q[0]] + q[1..];
          }
        }
      }
    }
  }

  /** A leading `%` lets the rest of the pattern match any suffix. */
  lemma {:induction false} LikeLeadingPercent(s: string, rest: string)
    ensures Like(s, "%" + rest) <==> exists i | 0 <= i <= |s| :: Like(s[i..], rest)
    decreases |s|
  {
    var p := "%" + rest;
    assert p[1..] == rest;
    if s == [] {
      assert s[0..] == s;
    } else {
      LikeLeadingPercent(s[1..], rest);
      if Like(s, p) {
        if !Like(s, rest) {
          var i :| 0 <= i <= |s[1..]| && Like(s[1..][i..], rest);
          assert s[1..][i..] == s[i + 1..];
        } else {
          assert s[0..] == s;
        }
      } else {
        forall i | 0 <= i <= |s| ensures !Like(s[i..], rest) {
          if i == 0 {
            assert s[0..] == s;
          } else {
            assert s[1..][i - 1..] == s[i..];
          }
        }
      }
    }
  }

  /** For a wildcard-free query the server's pattern `%q%` is substring
      search. */
  lemma LikeContains(s: string, q: string)
    requires NoWildcards(q)
    ensures Like(s, "%" + q + "%") <==> Contains(s, q)
  {
    assert "%" + q + "%" == "%" + (q + "%");
    LikeLeadingPercent(s, q + "%");
    if Contains(s, q) {
      var i :| 0 <= i <= |s| - |q| && OccursAt(s, q, i);
      LikePrefix(s[i..], q);
      assert s[i..][..|q|] == s[i..i + |q|];
    }
    if Like(s, "%" + (q + "%")) {
      var i :| 0 <= i <= |s| && Like(s[i..], q + "%");
      LikePrefix(s[i..], q);
      assert s[i..][..|q|] == s[i..i + |q|];
      assert OccursAt(s, q, i);
    }
  }

  /** The wildcards are not escaped: a query of one `_` matches every
      non-empty value, not only values containing `_`. */
  lemma UnderscoreMatchesAnyCharacter(c: char)
    ensures Like([c], "%_%")
    ensures c != '_' ==> !Contains([c], "_")
  {
    var p := "%_%";
    assert p[1..] == "_%" && p[1..][1..] == "%";
    LikeAnything([]);
    assert [c][1..] == [];
    if c != '_' {
      assert [c][0..1] == [c];
      assert !OccursAt([c], "_", 0);
    }
  }
}
