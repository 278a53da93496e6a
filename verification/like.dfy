/** SQLite's `LIKE` operator as the store's search uses it: no ESCAPE
    clause, `%` matches any run of characters (possibly empty), `_` matches
    exactly one character, and letters compare case-insensitively for ASCII
    only (SQLite's default, which this shares with `Text.LowerChar`). */
module Like {
  import Text

  predicate Wildcard(c: char) {
    c == '%' || c == '_'
  }

  predicate NoWildcards(q: string) {
    forall k :: 0 <= k < |q| ==> !Wildcard(q[k])
  }

  /** `s LIKE p`. */
  predicate Like(p: string, s: string)
    decreases |p| + |s|
  {
    if |p| == 0 then |s| == 0
    else if p[0] == '%' then Like(p[1..], s) || (|s| > 0 && Like(p, s[1..]))
    else |s| > 0 && (p[0] == '_' || Text.LowerChar(p[0]) == Text.LowerChar(s[0]))
         && Like(p[1..], s[1..])
  }

  /** `q` matches `s` at offset `i` ignoring ASCII case. */
  predicate FoldedAt(s: string, q: string, i: int) {
    0 <= i && i + |q| <= |s| &&
    forall k :: 0 <= k < |q| ==> Text.LowerChar(s[i + k]) == Text.LowerChar(q[k])
  }

  /** The pattern `%` alone matches every text. */
  lemma {:induction false} PercentMatchesAll(s: string)
    ensures Like("%", s)
    decreases |s|
  {
    if |s| > 0 {
      PercentMatchesAll(s[1..]);
    }
  }

  /** A literal prefix of the pattern consumes the same number of characters
      of the text, compared without ASCII case. */
  lemma {:induction false} LiteralPrefix(q: string, r: string, s: string)
    requires NoWildcards(q)
    ensures Like(q + r, s) <==> FoldedAt(s, q, 0) && Like(r, s[|q|..])
    decreases |q|
  {
    if |q| == 0 {
      assert q + r == r;
      assert s[0..] == s;
    } else if |s| > 0 {
      assert (q + r)[0] == q[0];
      assert (q + r)[1..] == q[1..] + r;
      LiteralPrefix(q[1..], r, s[1..]);
      if |q| <= |s| {
        assert s[1..][|q| - 1..] == s[|q|..];
      }
      assert FoldedAt(s, q, 0) <==>
        Text.LowerChar(s[0]) == Text.LowerChar(q[0]) && FoldedAt(s[1..], q[1..], 0)
      by {
        if Text.LowerChar(s[0]) == Text.LowerChar(q[0]) && FoldedAt(s[1..], q[1..], 0) {
          forall k | 0 <= k < |q| ensures Text.LowerChar(s[k]) == Text.LowerChar(q[k]) {
            if k > 0 {
              assert s[1..][k - 1] == s[k] && q[1..][k - 1] == q[k];
            }
          }
        }
      }
    } else {
      assert (q + r)[0] == q[0];
    }
  }

  /** A leading `%` lets the rest of the pattern match any suffix. */
  lemma {:induction false} PercentPrefix(t: string, s: string)
    ensures Like("%" + t, s) <==> exists i :: 0 <= i <= |s| && Like(t, s[i..])
    decreases |s|
  {
    assert ("%" + t)[0] == '%';
    assert ("%" + t)[1..] == t;
    assert s[0..] == s;
    if |s| > 0 {
      PercentPrefix(t, s[1..]);
      if Like("%" + t, s[1..]) {
        var i :| 0 <= i <= |s[1..]| && Like(t, s[1..][i..]);
        assert s[1..][i..] == s[i + 1..];
      }
      if exists i :: 0 <= i <= |s| && Like(t, s[i..]) {
        var i :| 0 <= i <= |s| && Like(t, s[i..]);
        if i > 0 {
          assert s[1..][i - 1..] == s[i..];
        }
      }
    }
  }

  /** Folded matching at an offset is plain matching of the lower-cased texts. */
  lemma FoldedAtIsOccurrence(s: string, q: string, i: int)
    ensures FoldedAt(s, q, i) <==> Text.OccursAt(Text.ToLower(s), Text.ToLower(q), i)
  {
    var ls, lq := Text.ToLower(s), Text.ToLower(q);
    if 0 <= i && i + |q| <= |s| {
      if FoldedAt(s, q, i) {
        assert ls[i..i + |lq|] == lq by {
          forall k | 0 <= k < |lq| ensures ls[i..i + |lq|][k] == lq[k] {
            assert ls[i + k] == Text.LowerChar(s[i + k]);
          }
        }
      }
      if Text.OccursAt(ls, lq, i) {
        forall k | 0 <= k < |q| ensures Text.LowerChar(s[i + k]) == Text.LowerChar(q[k]) {
          assert ls[i..i + |lq|][k] == lq[k];
        }
      }
    }
  }

  /** The search pattern `%q%` built around a query without wildcards matches
      exactly the texts containing the query, ignoring ASCII case. */
  lemma SubstringSearch(q: string, s: string)
    requires NoWildcards(q)
    ensures Like("%" + q + "%", s) <==> Text.Contains(Text.ToLower(s), Text.ToLower(q))
  {
    assert "%" + q + "%" == "%" + (q + "%");
    PercentPrefix(q + "%", s);
    var ls, lq := Text.ToLower(s), Text.ToLower(q);
    if Like("%" + q + "%", s) {
      var i :| 0 <= i <= |s| && Like(q + "%", s[i..]);
      LiteralPrefix(q, "%", s[i..]);
      assert FoldedAt(s, q, i) by {
        forall k | 0 <= k < |q| ensures Text.LowerChar(s[i + k]) == Text.LowerChar(q[k]) {
          assert s[i..][k] == s[i + k];
        }
      }
      FoldedAtIsOccurrence(s, q, i);
    }
    if Text.Contains(ls, lq) {
      var i :| 0 <= i <= |ls| && Text.OccursAt(ls, lq, i);
      FoldedAtIsOccurrence(s, q, i);
      LiteralPrefix(q, "%", s[i..]);
      PercentMatchesAll(s[i..][|q|..]);
      assert FoldedAt(s[i..], q, 0) by {
        forall k | 0 <= k < |q| ensures Text.LowerChar(s[i..][k]) == Text.LowerChar(q[k]) {
          assert s[i..][k] == s[i + k];
        }
      }
    }
  }

  /** A wildcard in the query is not escaped: `_` matches any one character,
      so the search for `a_c` finds `abc`. */
  lemma UnderscoreIsWildcard()
    ensures Like("%a_c%", "abc")
    ensures !Text.Contains("abc", "a_c")
  {
    assert Like("%a_c%", "abc") by {
      assert "%a_c%"[1..] == "a_c%";
      assert "a_c%"[1..] == "_c%";
      assert "_c%"[1..] == "c%";
      assert "c%"[1..] == "%";
      assert "abc"[1..] == "bc";
      assert "bc"[1..] == "c";
      assert "c"[1..] == "";
      assert Like("%", "");
    }
    forall i | 0 <= i <= 3 ensures !Text.OccursAt("abc", "a_c", i) {
      if i == 0 {
        assert "abc"[0..3][1] != "a_c"[1];
      }
    }
  }
}
