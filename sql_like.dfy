/**
 * SQLite's `LIKE` operator as the query's fallback search uses it
 * (`json(data) LIKE '%term%'`, no ESCAPE clause): `%` matches any run of
 * characters, `_` exactly one, and ASCII letters match regardless of case.
 */
module SqlLike {
  import opened PyStrings

  predicate Like(s: string, p: string)
    decreases |s| + |p|
  {
    if p == [] then s == []
    else if p[0] == '%' then Like(s, p[1..]) || (s != [] && Like(s[1..], p))
    else s != [] && (p[0] == '_' || LowerChar(s[0]) == LowerChar(p[0])) && Like(s[1..], p[1..])
  }

  /** The pattern the fallback search builds from a term: `f"%{term}%"`. */
  function ContainsPattern(term: string): string {
    "%" + term + "%"
  }

  predicate NoWildcards(t: string) {
    forall i | 0 <= i < |t| :: t[i] != '%' && t[i] != '_'
  }

  /** `t` occurs in `s` at `i` when ASCII case is ignored. */
  predicate OccursFoldedAt(s: string, t: string, i: int) {
    0 <= i && i + |t| <= |s| && Lower(s[i..i + |t|]) == Lower(t)
  }

  /**
   * For a term without wildcards, the fallback pattern holds exactly when
   * the term occurs in the text, ASCII case ignored.
   */
  lemma LikeContains(s: string, t: string)
    requires NoWildcards(t)
    ensures Like(s, ContainsPattern(t)) <==> exists i :: OccursFoldedAt(s, t, i)
  {
    assert ContainsPattern(t) == "%" + (t + "%");
    LikeSkip(s, t + "%");
    if Like(s, ContainsPattern(t)) {
      var i :| 0 <= i <= |s| && Like(s[i..], t + "%");
      LikePrefix(s[i..], t);
      assert s[i..][..|t|] == s[i..i + |t|];
      assert OccursFoldedAt(s, t, i);
    }
    if exists i :: OccursFoldedAt(s, t, i) {
      var i :| OccursFoldedAt(s, t, i);
      LikePrefix(s[i..], t);
      assert s[i..][..|t|] == s[i..i + |t|];
    }
  }

  /** A term occurring verbatim is found by the fallback pattern. */
  lemma ContainsIsLike(s: string, t: string)
    requires NoWildcards(t)
    requires Contains(s, t)
    ensures Like(s, ContainsPattern(t))
  {
    var i := Find(s, t, 0).value;
    assert OccursFoldedAt(s, t, i);
    LikeContains(s, t);
  }

  /** A lone `%` matches everything. */
  lemma {:induction false} LikeAnything(s: string)
    ensures Like(s, "%")
    decreases |s|
  {
    assert "%"[1..] == [];
    if s != [] {
      LikeAnything(s[1..]);
    }
  }

  /** `t%` with a wildcard-free `t` matches the texts that begin with `t`, case aside. */
  lemma {:induction false} LikePrefix(s: string, t: string)
    requires NoWildcards(t)
    ensures Like(s, t + "%") <==> |t| <= |s| && Lower(s[..|t|]) == Lower(t)
    decreases |t|
  {
    if t == [] {
      assert t + "%" == "%";
      LikeAnything(s);
    } else {
      assert (t + "%")[0] == t[0];
      assert (t + "%")[1..] == t[1..] + "%";
      if s != [] {
        LikePrefix(s[1..], t[1..]);
        if |t| <= |s| {
          var a, b := s[..|t|], t;
          assert Lower(a) == Lower(b) <==> LowerChar(a[0]) == LowerChar(b[0]) && Lower(a[1..]) == Lower(b[1..]) by {
            if LowerChar(a[0]) == LowerChar(b[0]) && Lower(a[1..]) == Lower(b[1..]) {
              assert forall k | 0 <= k < |a| :: Lower(a)[k] == Lower(b)[k] by {
                forall k | 0 <= k < |a| ensures Lower(a)[k] == Lower(b)[k] {
                  if k > 0 {
                    assert Lower(a[1..])[k - 1] == Lower(b[1..])[k - 1];
                  }
                }
              }
            }
            if Lower(a) == Lower(b) {
              assert Lower(a)[0] == Lower(b)[0];
              assert forall k | 0 <= k < |a| - 1 :: Lower(a[1..])[k] == Lower(a)[k + 1];
            }
          }
          assert s[1..][..|t| - 1] == a[1..];
        }
      }
    }
  }

  /** A leading `%` lets the rest of the pattern start anywhere. */
  lemma {:induction false} LikeSkip(s: string, q: string)
    ensures Like(s, "%" + q) <==> exists i :: 0 <= i <= |s| && Like(s[i..], q)
    decreases |s|
  {
    var p := "%" + q;
    assert p[0] == '%' && p[1..] == q;
    assert s[0..] == s;
    if s != [] {
      LikeSkip(s[1..], q);
      if exists i :: 0 <= i <= |s| && Like(s[i..], q) {
        var i :| 0 <= i <= |s| && Like(s[i..], q);
        if i > 0 {
          assert s[1..][i - 1..] == s[i..];
        }
      }
      if exists i :: 0 <= i <= |s| - 1 && Like(s[1..][i..], q) {
        var i :| 0 <= i <= |s| - 1 && Like(s[1..][i..], q);
        assert s[1..][i..] == s[i + 1..];
      }
    }
  }
}
