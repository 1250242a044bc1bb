/** SQL `LIKE` as MySQL evaluates it, and SQLAlchemy's `ilike`, which renders as
    `lower(column) LIKE lower(pattern)`. In a pattern `%` matches any run of
    characters, `_` exactly one, and the default escape `\` makes the next
    character literal; a `\` ending the pattern stands for itself. */
module SqlLike {
  import opened Text

  datatype Token = Literal(c: char) | AnyChar | AnyString

  /** The pattern read left to right. */
  function Tokens(p: string): seq<Token>
    decreases |p|
  {
    if |p| == 0 then []
    else if p[0] == '%' then [AnyString] + Tokens(p[1..])
    else if p[0] == '_' then [AnyChar] + Tokens(p[1..])
    else if p[0] == '\\' && |p| >= 2 then [Literal(p[1])] + Tokens(p[2..])
    else [Literal(p[0])] + Tokens(p[1..])
  }

  /** The whole of `t` matches the token sequence. */
  predicate Matches(ts: seq<Token>, t: string)
    decreases |ts|, |t|
  {
    if |ts| == 0 then |t| == 0
    else match ts[0]
      case Literal(c) => |t| > 0 && t[0] == c && Matches(ts[1..], t[1..])
      case AnyChar => |t| > 0 && Matches(ts[1..], t[1..])
      case AnyString => Matches(ts[1..], t) || (|t| > 0 && Matches(ts, t[1..]))
  }

  /** `t LIKE p`. */
  predicate Like(t: string, p: string) {
    Matches(Tokens(p), t)
  }

  /** `column.ilike(p)`. */
  predicate ILike(t: string, p: string) {
    Like(LowerAll(t), LowerAll(p))
  }

  /** No character of `q` means anything special in a pattern. */
  predicate Plain(q: string) {
    forall i :: 0 <= i < |q| ==> q[i] != '%' && q[i] != '_' && q[i] != '\\'
  }

  /** The tokens matching exactly the characters of `q`. */
  function Literals(q: string): (r: seq<Token>)
    ensures |r| == |q|
    ensures forall i :: 0 <= i < |q| ==> r[i] == Literal(q[i])
  {
    seq(|q|, i requires 0 <= i < |q| => Literal(q[i]))
  }

  /** A plain prefix reads as literals. */
  lemma {:induction false} TokensOfPlainPrefix(q: string, rest: string)
    requires Plain(q)
    ensures Tokens(q + rest) == Literals(q) + Tokens(rest)
    decreases |q|
  {
    if |q| > 0 {
      assert (q + rest)[1..] == q[1..] + rest;
      TokensOfPlainPrefix(q[1..], rest);
      assert Literals(q) == [Literal(q[0])] + Literals(q[1..]);
    } else {
      assert q + rest == rest;
    }
  }

  /** A lone `%` matches every text. */
  lemma {:induction false} AnyStringMatchesAll(t: string)
    ensures Matches([AnyString], t)
    decreases |t|
  {
    if |t| > 0 {
      AnyStringMatchesAll(t[1..]);
    } else {
      assert [AnyString][1..] == [];
    }
  }

  /** `q%` with a plain `q` matches exactly the texts that start with `q`. */
  lemma {:induction false} LiteralsThenAnyString(q: string, t: string)
    ensures Matches(Literals(q) + [AnyString], t) <==> StartsWith(t, q)
    decreases |q|
  {
    var ts := Literals(q) + [AnyString];
    if |q| == 0 {
      assert ts == [AnyString];
      AnyStringMatchesAll(t);
    } else {
      assert ts[1..] == Literals(q[1..]) + [AnyString];
      if |t| > 0 {
        LiteralsThenAnyString(q[1..], t[1..]);
        assert StartsWith(t, q) <==> t[0] == q[0] && StartsWith(t[1..], q[1..]) by {
          if StartsWith(t, q) {
            assert t[1..][..|q| - 1] == t[..|q|][1..];
          }
          if t[0] == q[0] && StartsWith(t[1..], q[1..]) {
            assert t[..|q|] == [t[0]] + t[1..][..|q| - 1];
          }
        }
      }
    }
  }

  /** `sub in t` is either an occurrence at the start or one further on. */
  lemma ContainsStep(t: string, sub: string)
    ensures Contains(t, sub) <==> StartsWith(t, sub) || (|t| > 0 && Contains(t[1..], sub))
  {
    if Contains(t, sub) && !StartsWith(t, sub) {
      var i :| 0 <= i <= |t| && OccursAt(t, sub, i);
      assert i > 0;
      assert t[1..][i - 1..i - 1 + |sub|] == t[i..i + |sub|];
      assert OccursAt(t[1..], sub, i - 1);
    }
    if |t| > 0 && Contains(t[1..], sub) {
      var i :| 0 <= i <= |t[1..]| && OccursAt(t[1..], sub, i);
      assert t[i + 1..i + 1 + |sub|] == t[1..][i..i + |sub|];
      assert OccursAt(t, sub, i + 1);
    }
    if StartsWith(t, sub) {
      assert OccursAt(t, sub, 0);
    }
  }

  /** `%q%` with a plain `q` matches exactly the texts containing `q`. */
  lemma {:induction false} SurroundedMatchesContains(q: string, t: string)
    ensures Matches([AnyString] + Literals(q) + [AnyString], t) <==> Contains(t, q)
    decreases |t|
  {
    var ts := [AnyString] + Literals(q) + [AnyString];
    assert ts[1..] == Literals(q) + [AnyString];
    LiteralsThenAnyString(q, t);
    ContainsStep(t, q);
    if |t| > 0 {
      SurroundedMatchesContains(q, t[1..]);
    }
  }

  /** A `LIKE '%q%'` search for a query free of wildcards and escapes is a
      substring test. */
  lemma LikeIsSubstringSearch(t: string, q: string)
    requires Plain(q)
    ensures Like(t, "%" + q + "%") <==> Contains(t, q)
  {
    TokensOfPlainPrefix(q, "%");
    assert "%" + q + "%" == ['%'] + (q + "%");
    assert Tokens("%" + q + "%") == [AnyString] + Literals(q) + [AnyString];
    SurroundedMatchesContains(q, t);
  }

  /** The `ilike('%q%')` search of the listing, for a query free of wildcards
      and escapes, is a substring test on the ASCII-lower-cased texts. */
  lemma ILikeIsCaseInsensitiveSearch(t: string, q: string)
    requires Plain(q)
    ensures ILike(t, "%" + q + "%") <==> Contains(LowerAll(t), LowerAll(q))
  {
    LowerAllAppend("%" + q, "%");
    LowerAllAppend("%", q);
    assert LowerAll("%") == "%";
    assert LowerAll("%" + q + "%") == "%" + LowerAll(q) + "%";
    LikeIsSubstringSearch(LowerAll(t), LowerAll(q));
  }

  /** The search text is not escaped, so an `_` in it is a wildcard: searching
      for `"_"` keeps every non-empty value, not the values holding an `_`. */
  lemma UnderscoreSearchMatchesAnyNonEmpty(t: string)
    ensures ILike(t, "%_%") <==> |t| > 0
  {
    assert LowerAll("%_%") == "%_%";
    var ts := [AnyString, AnyChar, AnyString];
    assert Tokens("%_%") == ts by {
      assert "%_%"[1..] == "_%";
      assert "_%"[1..] == "%";
      assert "%"[1..] == "";
    }
    var lt := LowerAll(t);
    if |lt| > 0 {
      assert ts[1..] == [AnyChar, AnyString];
      assert [AnyChar, AnyString][1..] == [AnyString];
      AnyStringMatchesAll(lt[1..]);
      assert Matches(ts[1..], lt);
    } else {
      assert !Matches(ts[1..], lt);
    }
  }
}
