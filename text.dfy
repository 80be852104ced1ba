/** The string operations the catalogue relies on, restricted to ASCII:
    the digit class of the six-digit patterns, Python's `str.strip()`, the
    case folding and substring test behind SQL `ILIKE '%q%'`, and the
    character-by-character order of text columns in `ORDER BY`. */
module Text {

  predicate IsAsciiDigit(c: char) {
    '0' <= c <= '9'
  }

  /** The pattern `^[0-9]{6}$` (and `^\d{6}$` over ASCII): exactly six
      characters, each a decimal digit. */
  predicate IsSixDigits(s: string) {
    |s| == 6 && forall i :: 0 <= i < |s| ==> IsAsciiDigit(s[i])
  }

  /** The ASCII characters Python's `str.isspace()` accepts: tab, line feed,
      vertical tab, form feed, carriage return, the four information
      separators 0x1C-0x1F, and space. */
  predicate IsWhitespace(c: char) {
    var n := c as int;
    (9 <= n <= 13) || (28 <= n <= 32)
  }

  predicate AllWhitespace(s: string) {
    forall i :: 0 <= i < |s| ==> IsWhitespace(s[i])
  }

  /** `s` with its leading whitespace removed: a suffix of `s` that starts
      with a non-whitespace character, everything cut off being whitespace. */
  function TrimStart(s: string): (r: string)
    ensures |r| <= |s| && r == s[|s| - |r|..]
    ensures AllWhitespace(s[..|s| - |r|])
    ensures r == [] || !IsWhitespace(r[0])
  {
    if |s| > 0 && IsWhitespace(s[0]) then
      var r := TrimStart(s[1..]);
      TrimStartStep(s, r);
      r
    else
      s
  }

  /** The recursive step of `TrimStart`: what is cut from `s[1..]`, with the
      whitespace `s[0]` in front, is what is cut from `s`. */
  lemma TrimStartStep(s: string, r: string)
    requires |s| > 0 && IsWhitespace(s[0]) && |r| <= |s| - 1
    requires r == s[1..][|s| - 1 - |r|..] && AllWhitespace(s[1..][..|s| - 1 - |r|])
    ensures r == s[|s| - |r|..] && AllWhitespace(s[..|s| - |r|])
  {
    var k := |s| - |r|;
    forall i | 0 <= i < k
      ensures IsWhitespace(s[..k][i])
    {
      if i > 0 {
        assert s[..k][i] == s[1..][..k - 1][i - 1];
      }
    }
  }

  /** `s` with its trailing whitespace removed: a prefix of `s` that ends
      with a non-whitespace character, everything cut off being whitespace. */
  function TrimEnd(s: string): (r: string)
    ensures |r| <= |s| && r == s[..|r|]
    ensures AllWhitespace(s[|r|..])
    ensures r == [] || !IsWhitespace(r[|r| - 1])
  {
    if |s| > 0 && IsWhitespace(s[|s| - 1]) then
      var r := TrimEnd(s[..|s| - 1]);
      TrimEndStep(s, r);
      r
    else
      s
  }

  /** The recursive step of `TrimEnd`, mirroring `TrimStartStep`. */
  lemma TrimEndStep(s: string, r: string)
    requires |s| > 0 && IsWhitespace(s[|s| - 1]) && |r| <= |s| - 1
    requires r == s[..|s| - 1][..|r|] && AllWhitespace(s[..|s| - 1][|r|..])
    ensures r == s[..|r|] && AllWhitespace(s[|r|..])
  {
    forall i | |r| <= i < |s|
      ensures IsWhitespace(s[i])
    {
      if i < |s| - 1 {
        assert s[i] == s[..|s| - 1][|r|..][i - |r|];
      }
    }
  }

  /** Python's `str.strip()` with no argument. */
  function Strip(s: string): (r: string)
    ensures |r| <= |s|
    ensures r == [] || (!IsWhitespace(r[0]) && !IsWhitespace(r[|r| - 1]))
  {
    TrimEnd(TrimStart(s))
  }

  /** What `Strip` keeps is a contiguous part of its input, and all it cuts
      off on either side is whitespace. */
  lemma StripCutsWhitespace(s: string)
    ensures exists i, j :: InfixCutAt(s, Strip(s), i, j)
  {
    var a := TrimStart(s);
    var r := TrimEnd(a);
    CutOfCut(s, a, r);
    assert Strip(s) == r;
    assert InfixCutAt(s, r, |s| - |a|, |s| - |a| + |r|);
  }

  /** `r` is `s[i..j]`, and all that lies around it is whitespace. */
  predicate InfixCutAt(s: string, r: string, i: int, j: int) {
    0 <= i <= j <= |s| && r == s[i..j] && AllWhitespace(s[..i]) && AllWhitespace(s[j..])
  }

  /** Cutting a whitespace prefix and then a whitespace suffix leaves an
      infix with only whitespace around it. */
  lemma CutOfCut(s: string, a: string, r: string)
    requires |a| <= |s| && a == s[|s| - |a|..] && AllWhitespace(s[..|s| - |a|])
    requires |r| <= |a| && r == a[..|r|] && AllWhitespace(a[|r|..])
    ensures InfixCutAt(s, r, |s| - |a|, |s| - |a| + |r|)
  {
    var i := |s| - |a|;
    assert s[i + |r|..] == a[|r|..];
    assert s[i..i + |r|] == r;
  }

  /** Strip is characterised by its result: whitespace around a core that
      neither starts nor ends with whitespace is exactly what is removed. */
  lemma {:induction false} StripSurrounded(pre: string, core: string, post: string)
    requires AllWhitespace(pre) && AllWhitespace(post)
    requires core == [] || (!IsWhitespace(core[0]) && !IsWhitespace(core[|core| - 1]))
    ensures Strip(pre + core + post) == core
  {
    var s := pre + core + post;
    if core == [] {
      WhitespaceConcat(pre, post);
      assert s == pre + post;
      StripOfWhitespace(s);
    } else {
      assert s == pre + (core + post);
      TrimStartOfWhitespace(pre, core + post);
      assert TrimStart(s) == core + post;
      TrimEndOfWhitespace(core, post);
      assert Strip(s) == TrimEnd(core + post);
    }
  }

  lemma WhitespaceConcat(a: string, b: string)
    requires AllWhitespace(a) && AllWhitespace(b)
    ensures AllWhitespace(a + b)
  {
    forall i | 0 <= i < |a + b|
      ensures IsWhitespace((a + b)[i])
    {
      if i >= |a| {
        assert (a + b)[i] == b[i - |a|];
      }
    }
  }

  /** An all-whitespace string strips to nothing. */
  lemma StripOfWhitespace(s: string)
    requires AllWhitespace(s)
    ensures Strip(s) == []
  {
    var a := TrimStart(s);
    WhitespaceAt(s, |s| - |a|);
    assert TrimEnd(a) == [];
  }

  lemma WhitespaceAt(s: string, k: int)
    requires AllWhitespace(s) && 0 <= k <= |s|
    ensures k < |s| ==> IsWhitespace(s[k]) && s[k..][0] == s[k]
  {
  }

  lemma {:induction false} TrimStartOfWhitespace(pre: string, rest: string)
    requires AllWhitespace(pre)
    requires rest == [] || !IsWhitespace(rest[0])
    ensures TrimStart(pre + rest) == rest
  {
    if pre != [] {
      assert (pre + rest)[1..] == pre[1..] + rest;
      TrimStartOfWhitespace(pre[1..], rest);
    }
  }

  lemma {:induction false} TrimEndOfWhitespace(rest: string, post: string)
    requires AllWhitespace(post)
    requires rest == [] || !IsWhitespace(rest[|rest| - 1])
    ensures TrimEnd(rest + post) == rest
  {
    if post != [] {
      var s := rest + post;
      assert s[..|s| - 1] == rest + post[..|post| - 1];
      TrimEndOfWhitespace(rest, post[..|post| - 1]);
    } else {
      assert rest + post == rest;
    }
  }

  /** Stripping twice is stripping once. */
  lemma StripIdempotent(s: string)
    ensures Strip(Strip(s)) == Strip(s)
  {
    var r := Strip(s);
    StripSurrounded([], r, []);
    assert [] + r + [] == r;
  }

  /** `Strip` removes everything exactly when everything is whitespace. */
  lemma StripEmptyIffAllWhitespace(v: string)
    ensures Strip(v) == [] <==> AllWhitespace(v)
  {
    if AllWhitespace(v) {
      StripSurrounded(v, [], []);
      assert v + [] + [] == v;
    }
  }

  /** ASCII case folding, the part of `ILIKE`'s case-insensitivity the model keeps. */
  function LowerChar(c: char): char {
    if 'A' <= c <= 'Z' then (c as int + 32) as char else c
  }

  function Lower(s: string): string {
    seq(|s|, i requires 0 <= i < |s| => LowerChar(s[i]))
  }

  predicate OccursAt(s: string, p: string, i: int) {
    0 <= i && i + |p| <= |s| && s[i..i + |p|] == p
  }

  /** Whether `p` occurs in `s` as a contiguous substring (`s LIKE '%p%'`
      without wildcards inside `p`). */
  function Contains(s: string, p: string): (r: bool)
    ensures r <==> exists i :: OccursAt(s, p, i)
    decreases |s|
  {
    if |p| <= |s| && s[..|p|] == p then
      assert OccursAt(s, p, 0);
      true
    else if |s| == 0 then
      false
    else
      var r := Contains(s[1..], p);
      if r then
        var i :| OccursAt(s[1..], p, i);
        assert OccursAt(s, p, i + 1);
        true
      else
        assert forall i :: OccursAt(s, p, i) ==> i > 0 && OccursAt(s[1..], p, i - 1);
        false
  }

  /** `text ILIKE '%query%'`: case-insensitive substring match. */
  predicate ILikeContains(text: string, query: string) {
    Contains(Lower(text), Lower(query))
  }

  /** The empty query occurs in every text. */
  lemma ILikeEmptyMatchesAll(text: string)
    ensures ILikeContains(text, "")
  {
    assert OccursAt(Lower(text), Lower(""), 0);
  }

  /** Character-by-character order of strings, the order of `ORDER BY` on a
      text column whose values are all ASCII digits. */
  predicate StrLess(a: string, b: string)
    decreases |a|
  {
    if |a| == 0 then |b| > 0
    else |b| > 0 && (a[0] < b[0] || (a[0] == b[0] && StrLess(a[1..], b[1..])))
  }

  lemma {:induction false} StrLessIrreflexive(a: string)
    ensures !StrLess(a, a)
    decreases |a|
  {
    if |a| > 0 {
      StrLessIrreflexive(a[1..]);
    }
  }

  lemma {:induction false} StrLessTransitive(a: string, b: string, c: string)
    requires StrLess(a, b) && StrLess(b, c)
    ensures StrLess(a, c)
    decreases |a|
  {
    if |a| > 0 && a[0] == b[0] && b[0] == c[0] {
      StrLessTransitive(a[1..], b[1..], c[1..]);
    }
  }

  lemma {:induction false} StrLessTotal(a: string, b: string)
    requires a != b
    ensures StrLess(a, b) || StrLess(b, a)
    decreases |a|
  {
    if |a| > 0 && |b| > 0 && a[0] == b[0] {
      assert a == [a[0]] + a[1..] && b == [b[0]] + b[1..];
      StrLessTotal(a[1..], b[1..]);
    }
  }
}
