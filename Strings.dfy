// String helpers the editor relies on: decimal rendering of sequence
// numbers and template-literal values, `name.split('_')[1]`, the first-match
// `String.replace`, and the projection-name pattern `^PRJ_[A-Za-z0-9]{4}$`.

module Strings {
  import opened GraphTypes

  predicate IsDigit(c: char) { '0' <= c <= '9' }

  predicate IsAlnum(c: char) { IsDigit(c) || 'A' <= c <= 'Z' || 'a' <= c <= 'z' }

  function DigitChar(d: nat): (c: char)
    requires d < 10
    ensures IsDigit(c) && c as int - '0' as int == d
  {
    (('0' as int) + d) as char
  }

  /** Decimal rendering of a natural number, as `${n}` gives it. */
  function NatToString(n: nat): (s: string)
    ensures |s| >= 1
    ensures forall i :: 0 <= i < |s| ==> IsDigit(s[i])
    ensures (n < 10) == (|s| == 1)
    decreases n
  {
    if n < 10 then [DigitChar(n)] else NatToString(n / 10) + [DigitChar(n % 10)]
  }

  /** Distinct numbers render as distinct strings. */
  lemma {:induction false} NatToStringInjective(a: nat, b: nat)
    requires NatToString(a) == NatToString(b)
    ensures a == b
    decreases a
  {
    var sa, sb := NatToString(a), NatToString(b);
    if a >= 10 && b >= 10 {
      assert sa[|sa| - 1] == DigitChar(a % 10);
      assert sb[|sb| - 1] == DigitChar(b % 10);
      assert NatToString(a / 10) == sa[..|sa| - 1] == sb[..|sb| - 1] == NatToString(b / 10);
      NatToStringInjective(a / 10, b / 10);
    }
  }

  /** Rendering of an integer: a minus sign, then the digits of its magnitude. */
  function IntToString(i: int): (s: string)
    ensures |s| >= 1
    ensures (i < 0) == (s[0] == '-')
  {
    if i < 0 then "-" + NatToString(-i) else NatToString(i)
  }

  /** The text a template literal `${v}` interpolates for a property value. */
  function Text(v: Value): string
  {
    match v
    case Str(s) => s
    case Num(n) => IntToString(n)
    case Bool(b) => if b then "true" else "false"
    case Null => "null"
    case Undef => "undefined"
  }

  /** Appending to a common prefix is injective. */
  lemma PrefixCancel(p: string, a: string, b: string)
    requires p + a == p + b
    ensures a == b
  {
    assert a == (p + a)[|p|..];
    assert b == (p + b)[|p|..];
  }

  /** The longest prefix of `s` free of '_' (the first field of `s.split('_')`). */
  function UpToUnderscore(s: string): (r: string)
    ensures |r| <= |s| && r == s[..|r|]
    ensures '_' !in r
    ensures |r| < |s| ==> s[|r|] == '_'
  {
    if s == [] || s[0] == '_' then [] else [s[0]] + UpToUnderscore(s[1..])
  }

  /**
   * `s.split('_')[1] || ''`: the text between the first and the second '_'
   * (or up to the end), and "" when `s` contains no '_'.
   */
  function Field1(s: string): (r: string)
    ensures '_' !in r
  {
    var k := |UpToUnderscore(s)|;
    if k == |s| then "" else UpToUnderscore(s[k + 1..])
  }

  /** The second field of `a_e_rest` is `e` when neither `a` nor `e` holds a '_'. */
  lemma {:induction false} Field1OfJoin(a: string, e: string, rest: string)
    requires '_' !in a && '_' !in e
    requires rest == [] || rest[0] == '_'
    ensures Field1(a + "_" + e + rest) == e
  {
    var tail := "_" + e + rest;
    var s := a + tail;
    assert a + "_" + e + rest == s;
    assert tail[0] == '_';
    UpToUnderscoreOfJoin(a, tail);
    assert |UpToUnderscore(s)| == |a| < |s|;
    assert s[|a| + 1..] == tail[1..] == e + rest;
    UpToUnderscoreOfJoin(e, rest);
  }

  lemma {:induction false} UpToUnderscoreOfJoin(a: string, rest: string)
    requires '_' !in a
    requires rest == [] || rest[0] == '_'
    ensures UpToUnderscore(a + rest) == a
  {
    if a != [] {
      assert (a + rest)[1..] == a[1..] + rest;
      UpToUnderscoreOfJoin(a[1..], rest);
    }
  }

  /** `^PRJ_[A-Za-z0-9]{4}$`. */
  predicate ValidProjectionName(s: string)
  {
    |s| == 8 && s[..4] == "PRJ_" && forall i :: 4 <= i < 8 ==> IsAlnum(s[i])
  }

  /** The entity suffix of a well-formed projection name is its last four characters. */
  lemma ValidProjectionNameSuffix(s: string)
    requires ValidProjectionName(s)
    ensures Field1(s) == s[4..]
  {
    assert s == "PRJ" + "_" + s[4..] + [];
    Field1OfJoin("PRJ", s[4..], []);
  }

  /** `s[i..]` starts with `pat`. */
  predicate OccursAt(s: string, pat: string, i: nat)
  {
    i + |pat| <= |s| && s[i..i + |pat|] == pat
  }

  /** The first index at which `pat` occurs in `s` (`s.indexOf(pat)`), or None. */
  function IndexOf(s: string, pat: string): (r: Option<nat>)
    ensures r.Some? ==> OccursAt(s, pat, r.value) && forall j :: 0 <= j < r.value ==> !OccursAt(s, pat, j)
    ensures r.None? ==> forall j :: 0 <= j <= |s| ==> !OccursAt(s, pat, j)
    decreases |s|
  {
    if |pat| <= |s| && s[..|pat|] == pat then Some(0)
    else if s == [] then None
    else
      OccursShift(s, pat);
      assert !OccursAt(s, pat, 0);
      match IndexOf(s[1..], pat)
      case None => None
      case Some(k) => Some(k + 1)
  }

  /** An occurrence in the tail is an occurrence in `s`, one position later. */
  lemma OccursShift(s: string, pat: string)
    requires s != []
    ensures forall j: nat :: 1 <= j ==> (OccursAt(s, pat, j) <==> OccursAt(s[1..], pat, j - 1))
  {
    forall j: nat | 1 <= j ensures OccursAt(s, pat, j) <==> OccursAt(s[1..], pat, j - 1) {
      if j + |pat| <= |s| {
        assert s[1..][j - 1..j - 1 + |pat|] == s[j..j + |pat|];
      }
    }
  }

  /**
   * The replacement text `String.prototype.replace` inserts for a string
   * pattern (the GetSubstitution step of section 22.1.3.19.1 of ECMA-262):
   * `$$` becomes `$`, `$&` the matched text, `` $` `` the text before the
   * match and `$'` the text after it. A string pattern has no capture
   * groups, so `$1` or `$<` stay as written, as does every other character.
   */
  function Substitution(template: string, matched: string, before: string, after: string): (r: string)
    ensures '$' !in template ==> r == template
    decreases |template|
  {
    if template == [] then ""
    else if |template| >= 2 && template[0] == '$' && template[1] == '$' then
      "$" + Substitution(template[2..], matched, before, after)
    else if |template| >= 2 && template[0] == '$' && template[1] == '&' then
      matched + Substitution(template[2..], matched, before, after)
    else if |template| >= 2 && template[0] == '$' && template[1] == '`' then
      before + Substitution(template[2..], matched, before, after)
    else if |template| >= 2 && template[0] == '$' && template[1] == '\'' then
      after + Substitution(template[2..], matched, before, after)
    else [template[0]] + Substitution(template[1..], matched, before, after)
  }

  /** `s.replace(pat, rep)` with a string pattern: only the first occurrence is replaced. */
  function ReplaceFirst(s: string, pat: string, rep: string): (r: string)
    ensures IndexOf(s, pat).None? ==> r == s
    ensures IndexOf(s, pat).Some? ==>
              var i := IndexOf(s, pat).value;
              && |r| >= i + |s| - (i + |pat|)
              && r[..i] == s[..i]
              && r[|r| - (|s| - (i + |pat|))..] == s[i + |pat|..]
  {
    match IndexOf(s, pat)
    case None => s
    case Some(i) => s[..i] + Substitution(rep, pat, s[..i], s[i + |pat|..]) + s[i + |pat|..]
  }

  /**
   * A replacement free of `$` is inserted literally: the text before the
   * first occurrence, the replacement, then the text after it.
   */
  lemma ReplaceFirstLiteral(s: string, pat: string, rep: string)
    requires '$' !in rep
    ensures IndexOf(s, pat).Some? ==>
              var i := IndexOf(s, pat).value;
              ReplaceFirst(s, pat, rep) == s[..i] + rep + s[i + |pat|..]
  {
  }

  /**
   * A replacement holding `$` patterns is not inserted literally: renaming
   * `CL1` to `X$&` yields `XCL1` and to `X$$` yields `X$`, while `$1`,
   * which no capture group backs, stays as written.
   */
  lemma ReplacementPatterns()
    ensures ReplaceFirst("CL1", "CL1", "X$&") == "XCL1"
    ensures ReplaceFirst("CL1", "CL1", "X$$") == "X$"
    ensures ReplaceFirst("CL1", "CL1", "$1") == "$1"
  {
    assert IndexOf("CL1", "CL1") == Some(0);
    assert "CL1"[..0] == "" && "CL1"[3..] == "";
    SubstitutionStep("X$&", "CL1");
    SubstitutionStep("X$$", "CL1");
    SubstitutionStep("$1", "CL1");
  }

  lemma SubstitutionStep(t: string, m: string)
    requires t == "X$&" || t == "X$$" || t == "$1"
    ensures t == "X$&" ==> Substitution(t, m, "", "") == "X" + m
    ensures t == "X$$" ==> Substitution(t, m, "", "") == "X$"
    ensures t == "$1" ==> Substitution(t, m, "", "") == "$1"
  {
    if t == "X$&" {
      assert t[1..] == "$&" && t[1..][2..] == "";
    } else if t == "X$$" {
      assert t[1..] == "$$" && t[1..][2..] == "";
    } else {
      assert t[1..] == "1";
    }
  }

  /**
   * The text around the match: `` $` `` inserts what precedes it and `$'`
   * what follows it.
   */
  lemma ContextPatterns(before: string, m: string, after: string)
    ensures Substitution("$`", m, before, after) == before
    ensures Substitution("$'", m, before, after) == after
  {
    assert "$`"[2..] == "" && "$'"[2..] == "";
  }
}
