/** SQLite's `LIKE` operator as `search` uses it (search.py, lines 129 and 146):
    no ESCAPE clause, `%` matches any run of characters, `_` any one character,
    and letters compare case-insensitively for ASCII only. */
module SqlLike {
  import opened Strings

  predicate Wildcard(c: char)
  {
    c == '%' || c == '_'
  }

  /** `t LIKE p`. */
  predicate Like(p: string, t: string)
    decreases |p| + |t|
  {
    if p == [] then t == []
    else if p[0] == '%' then Like(p[1..], t) || (t != [] && Like(p, t[1..]))
    else t != [] && (p[0] == '_' || LowerChar(p[0]) == LowerChar(t[0])) && Like(p[1..], t[1..])
  }

  /** A trailing `%` matches every text. */
  lemma {:induction false} LikePercent(t: string)
    ensures Like("%", t)
    decreases |t|
  {
    assert "%"[1..] == [];
    if t != [] {
      LikePercent(t[1..]);
    }
  }

  /** An empty query, `%%`, matches every text. */
  lemma LikeEmptyQuery(t: string)
    ensures Like("%%", t)
  {
    assert "%%"[1..] == "%";
    LikePercent(t);
  }

  /** A leading `%` lets the rest of the pattern match any tail of the text. */
  lemma {:induction false} LikeLeadingPercent(r: string, t: string)
    ensures Like(['%'] + r, t) <==> exists k :: 0 <= k <= |t| && Like(r, t[k..])
    decreases |t|
  {
    var p := ['%'] + r;
    assert p[0] == '%' && p[1..] == r;
    assert t[0..] == t;
    if t != [] {
      LikeLeadingPercent(r, t[1..]);
      if exists k :: 0 <= k <= |t| && Like(r, t[k..]) {
        var k :| 0 <= k <= |t| && Like(r, t[k..]);
        if k > 0 {
          assert t[1..][k - 1..] == t[k..];
        }
      }
      if exists k :: 0 <= k <= |t[1..]| && Like(r, t[1..][k..]) {
        var k :| 0 <= k <= |t[1..]| && Like(r, t[1..][k..]);
        assert t[1..][k..] == t[k + 1..];
      }
    }
  }

  /** A pattern part without wildcards matches its own length of text, ignoring
      ASCII case. */
  lemma {:induction false} LikeLiteral(q: string, r: string, t: string)
    requires forall i :: 0 <= i < |q| ==> !Wildcard(q[i])
    ensures Like(q + r, t) <==>
              |q| <= |t| && LowerAscii(t[..|q|]) == LowerAscii(q) && Like(r, t[|q|..])
    decreases |q|
  {
    if q == [] {
      assert q + r == r && t[..0] == [] && t[0..] == t;
    } else {
      var p := q + r;
      assert p[0] == q[0] && p[1..] == q[1..] + r;
      LikeLiteral(q[1..], r, if t == [] then t else t[1..]);
      if t != [] {
        var n := |q|;
        if n <= |t| {
          assert t[1..][..n - 1] == t[1..n];
          assert t[1..][n - 1..] == t[n..];
          assert LowerAscii(t[..n]) == LowerAscii(q) <==>
                 LowerChar(t[0]) == LowerChar(q[0]) && LowerAscii(t[1..n]) == LowerAscii(q[1..]) by {
            if LowerAscii(t[..n]) == LowerAscii(q) {
              assert LowerAscii(t[..n])[0] == LowerAscii(q)[0];
              forall i | 0 <= i < n - 1 ensures LowerAscii(t[1..n])[i] == LowerAscii(q[1..])[i] {
                assert LowerAscii(t[..n])[i + 1] == LowerAscii(q)[i + 1];
              }
            }
            if LowerChar(t[0]) == LowerChar(q[0]) && LowerAscii(t[1..n]) == LowerAscii(q[1..]) {
              forall i | 0 <= i < n ensures LowerAscii(t[..n])[i] == LowerAscii(q)[i] {
                if i > 0 {
                  assert LowerAscii(t[1..n])[i - 1] == LowerAscii(q[1..])[i - 1];
                }
              }
            }
          }
        }
      }
    }
  }

  /** `t LIKE '%q%'` for a query without wildcards is substring search, ignoring
      ASCII case. */
  lemma LikeContains(q: string, t: string)
    requires forall i :: 0 <= i < |q| ==> !Wildcard(q[i])
    ensures Like("%" + q + "%", t) <==> Contains(LowerAscii(t), LowerAscii(q))
  {
    assert "%" + q + "%" == ['%'] + (q + "%");
    LikeLeadingPercent(q + "%", t);
    if Like("%" + q + "%", t) {
      var k :| 0 <= k <= |t| && Like(q + "%", t[k..]);
      MatchAtOccurs(q, "%", t, k);
    }
    if Contains(LowerAscii(t), LowerAscii(q)) {
      var k :| 0 <= k <= |LowerAscii(t)| && OccursAt(LowerAscii(t), LowerAscii(q), k);
      OccursMatchAt(q, t, k);
    }
  }

  lemma MatchAtOccurs(q: string, r: string, t: string, k: nat)
    requires forall i :: 0 <= i < |q| ==> !Wildcard(q[i])
    requires k <= |t| && Like(q + r, t[k..])
    ensures OccursAt(LowerAscii(t), LowerAscii(q), k)
  {
    LiteralPrefix(q, r, t[k..]);
    PrefixOccurs(q, t, k);
  }

  lemma PrefixOccurs(q: string, t: string, k: nat)
    requires k <= |t| && |q| <= |t[k..]| && LowerAscii(t[k..][..|q|]) == LowerAscii(q)
    ensures OccursAt(LowerAscii(t), LowerAscii(q), k)
  {
    var n := |q|;
    assert t[k..][..n] == t[k..k + n];
    LowerSlice(t, k, k + n);
  }

  lemma OccursMatchAt(q: string, t: string, k: nat)
    requires forall i :: 0 <= i < |q| ==> !Wildcard(q[i])
    requires k <= |t| && OccursAt(LowerAscii(t), LowerAscii(q), k)
    ensures Like(q + "%", t[k..])
  {
    OccursPrefix(q, t, k);
    LikePercent(t[k..][|q|..]);
    PrefixLiteral(q, "%", t[k..]);
  }

  lemma OccursPrefix(q: string, t: string, k: nat)
    requires k <= |t| && OccursAt(LowerAscii(t), LowerAscii(q), k)
    ensures |q| <= |t[k..]| && LowerAscii(t[k..][..|q|]) == LowerAscii(q)
  {
    var n := |q|;
    LowerSlice(t, k, k + n);
    assert t[k..][..n] == t[k..k + n];
  }

  /** The forward half of `LikeLiteral`, without the rest of the match. */
  lemma LiteralPrefix(q: string, r: string, u: string)
    requires forall i :: 0 <= i < |q| ==> !Wildcard(q[i])
    requires Like(q + r, u)
    ensures |q| <= |u| && LowerAscii(u[..|q|]) == LowerAscii(q)
  {
    LikeLiteral(q, r, u);
  }

  /** The backward half of `LikeLiteral`. */
  lemma PrefixLiteral(q: string, r: string, u: string)
    requires forall i :: 0 <= i < |q| ==> !Wildcard(q[i])
    requires |q| <= |u| && LowerAscii(u[..|q|]) == LowerAscii(q) && Like(r, u[|q|..])
    ensures Like(q + r, u)
  {
    LikeLiteral(q, r, u);
  }

  lemma LowerSlice(t: string, i: nat, j: nat)
    requires i <= j <= |t|
    ensures LowerAscii(t)[i..j] == LowerAscii(t[i..j])
  {
  }
}
