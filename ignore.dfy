/** Ignore patterns: the configured strings and their compiled form
    (Ignore.Compile), with matching against a relative path. */
module Ignore {
  import opened Wrappers

  /** regexp.Compile, which lies outside this model: a pattern source either
      compiles to a matcher (regexp.MatchString, an unanchored search) or
      fails with a message. */
  type Regex = string -> Result<string -> bool, string>

  /** A compiled ignore pattern. A backtick-quoted literal is compiled through
      regexp.QuoteMeta, so it matches exactly the paths that contain its text
      (LiteralMatchesIff);
      every other pattern is whatever the regular-expression engine made of it. */
  datatype Pattern =
    | Literal(text: string)
    | Expr(source: string, matcher: string -> bool)

  /** The patterns of a newly created roster: version-control metadata. */
  const IgnoreDefault: seq<string> := ["\\.git", "\\.svn"]

  /** At least two runes, the first and the last a backtick. */
  predicate Quoted(ign: string) {
    |ign| >= 2 && ign[0] == '`' && ign[|ign| - 1] == '`'
  }

  /** `t` occurs somewhere in `s`. */
  predicate Contains(s: string, t: string) {
    t <= s || (s != [] && Contains(s[1..], t))
  }

  predicate Matches(pat: Pattern, s: string) {
    match pat
    case Literal(t) => Contains(s, t)
    case Expr(_, m) => m(s)
  }

  /** Some pattern of the list matches `s`. */
  predicate MatchesAny(ire: seq<Pattern>, s: string) {
    exists i :: 0 <= i < |ire| && Matches(ire[i], s)
  }

  /** Every pattern of `ign` compiles: literals always do. */
  predicate Compiles(ign: seq<string>, regex: Regex) {
    forall i :: 0 <= i < |ign| ==> Quoted(ign[i]) || regex(ign[i]).Success?
  }

  /** `pat` is what Compile makes of the configured string `ign`. */
  ghost predicate CompiledFrom(pat: Pattern, ign: string, regex: Regex) {
    if Quoted(ign) then pat == Literal(ign[1..|ign| - 1])
    else pat.Expr? && pat.source == ign && regex(ign) == Success(pat.matcher)
  }

  /** Ignore.Compile: one pattern per string, in order, or the error of the
      first string that fails to compile. */
  method Compile(ign: seq<string>, regex: Regex) returns (r: Result<seq<Pattern>, string>)
    ensures r.Success? <==> Compiles(ign, regex)
    ensures r.Success? ==>
      |r.value| == |ign| && forall i :: 0 <= i < |ign| ==> CompiledFrom(r.value[i], ign[i], regex)
    ensures r.Failure? ==>
      exists k :: 0 <= k < |ign| && Compiles(ign[..k], regex)
        && !Quoted(ign[k]) && regex(ign[k]) == Failure(r.error)
  {
    var ire: seq<Pattern> := [];
    var i := 0;
    while i < |ign|
      invariant 0 <= i <= |ign| && |ire| == i
      invariant Compiles(ign[..i], regex)
      invariant forall j :: 0 <= j < i ==> CompiledFrom(ire[j], ign[j], regex)
    {
      var pat := ign[i];
      if Quoted(pat) {
        ire := ire + [Literal(pat[1..|pat| - 1])];
      } else {
        match regex(pat)
        case Failure(e) =>
          assert Compiles(ign[..i], regex) && !Quoted(ign[i]);
          assert !Compiles(ign, regex) by {
            assert !(Quoted(ign[i]) || regex(ign[i]).Success?);
          }
          return Failure(e);
        case Success(m) =>
          ire := ire + [Expr(pat, m)];
      }
      assert ign[..i + 1] == ign[..i] + [pat];
      i := i + 1;
    }
    assert ign[..i] == ign;
    return Success(ire);
  }

  /** The matching loop shared by Roster.Keep and the absentee seeding of
      Parse: it stops at the first pattern that matches. */
  method AnyMatch(ire: seq<Pattern>, s: string) returns (hit: bool)
    ensures hit <==> MatchesAny(ire, s)
  {
    for i := 0 to |ire|
      invariant forall j :: 0 <= j < i ==> !Matches(ire[j], s)
    {
      if Matches(ire[i], s) {
        return true;
      }
    }
    return false;
  }

  /** A literal matches every path that contains its text. */
  lemma {:induction false} LiteralMatchesContaining(pre: string, t: string, post: string)
    ensures Matches(Literal(t), pre + t + post)
  {
    if pre == [] {
      assert pre + t + post == t + post;
    } else {
      assert (pre + t + post)[1..] == pre[1..] + t + post;
      LiteralMatchesContaining(pre[1..], t, post);
    }
  }

  /** `t` occurs in `s` starting at index `k`. */
  predicate OccursAt(s: string, t: string, k: nat) {
    k + |t| <= |s| && s[k..k + |t|] == t
  }

  /** A literal matches exactly the paths in which its text occurs somewhere. */
  lemma {:induction false} LiteralMatchesIff(s: string, t: string)
    ensures Matches(Literal(t), s) <==> exists k: nat :: OccursAt(s, t, k)
  {
    if t <= s {
      assert OccursAt(s, t, 0);
    } else if s != [] {
      LiteralMatchesIff(s[1..], t);
      if k: nat :| OccursAt(s[1..], t, k) {
        assert s[1..][k..k + |t|] == s[k + 1..k + 1 + |t|];
        assert OccursAt(s, t, k + 1);
      }
      if k: nat :| OccursAt(s, t, k) {
        assert k != 0;
        assert s[1..][k - 1..k - 1 + |t|] == s[k..k + |t|];
        assert OccursAt(s[1..], t, k - 1);
      }
    }
  }
}
