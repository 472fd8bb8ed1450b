// internal/bucket/policy_evaluation.go: wildcardMatch, the greedy glob matcher
// behind the StringLike and ArnLike conditions.  A `char` stands for one byte.
module Wildcard {

  /** The documented meaning: '*' is any run of characters, '?' any one character. */
  predicate Glob(p: string, s: string)
    decreases |p| + |s|
  {
    if p == "" then s == ""
    else if p[0] == '*' then Glob(p[1..], s) || (s != "" && Glob(p, s[1..]))
    else s != "" && Accepts(p[0], s[0]) && Glob(p[1..], s[1..])
  }

  /** The first test of the loop: a single step of pattern and subject together. */
  predicate Accepts(c: char, x: char) {
    c == '?' || c == x
  }

  /** What the loop decides: a '*' that meets a '*' of the subject is spent on it. */
  predicate LiteralFirst(p: string, s: string)
    decreases |p|, 0
  {
    if p == "" then s == ""
    else if s != "" && Accepts(p[0], s[0]) then LiteralFirst(p[1..], s[1..])
    else p[0] == '*' && LiteralFirstSomewhere(p[1..], s)
  }

  /** `p` matches some suffix of `s`: what a recorded star may still try. */
  predicate LiteralFirstSomewhere(p: string, s: string)
    decreases |p|, |s| + 1
  {
    LiteralFirst(p, s) || (s != "" && LiteralFirstSomewhere(p, s[1..]))
  }

  /** The whole function, fast paths included. */
  predicate WildcardMatches(p: string, s: string) {
    p == "*" || LiteralFirst(p, s)
  }

  /** `q` and `s` agree character by character: no star was skipped over. */
  predicate StepForStep(q: string, s: string) {
    |q| == |s| && forall i :: 0 <= i < |q| ==> Accepts(q[i], s[i])
  }

  lemma {:induction false} StepForStepAdvances(q: string, rest: string, s: string, t: string)
    requires StepForStep(q, s)
    ensures LiteralFirst(q + rest, s + t) == LiteralFirst(rest, t)
    decreases |q|
  {
    if q == "" {
      assert q + rest == rest && s + t == t;
    } else {
      assert (q + rest)[1..] == q[1..] + rest && (s + t)[1..] == s[1..] + t;
      StepForStepAdvances(q[1..], rest, s[1..], t);
    }
  }

  lemma {:induction false} SomewhereFromSuffix(p: string, s: string, k: nat)
    requires k <= |s|
    requires LiteralFirstSomewhere(p, s[k..])
    ensures LiteralFirstSomewhere(p, s)
    decreases k
  {
    if k == 0 {
      assert s[k..] == s;
    } else {
      assert s[1..][k - 1..] == s[k..];
      SomewhereFromSuffix(p, s[1..], k - 1);
    }
  }

  /**
   * The exchange argument.  If `q` already walked step for step over `s`, then starting
   * it later can only reach `rest` at the same place or further right: the lead lost to an
   * empty star is never more than the lead there was, because a star without any lead
   * stands on the same '*' it stood on before.
   */
  lemma {:induction false} LeadIsKept(q: string, rest: string, s: string, t: string, d: nat)
    requires StepForStep(q, s)
    requires d <= |s + t|
    requires LiteralFirst(q + rest, (s + t)[d..])
    ensures LiteralFirstSomewhere(rest, t)
    decreases |q|, |s + t| - d
  {
    var u := s + t;
    if q == "" {
      assert q + rest == rest && u == t;
      SomewhereFromSuffix(rest, t, d);
    } else {
      assert (q + rest)[1..] == q[1..] + rest;
      var tail := s[1..] + t;
      assert u[1..] == tail;
      if d < |u| && Accepts(q[0], u[d]) {
        assert u[d..][1..] == tail[d..];
        LeadIsKept(q[1..], rest, s[1..], t, d);
      } else if d > 0 {
        SomewhereHasWitness(q[1..] + rest, u[d..]);
        var k :| 0 <= k <= |u[d..]| && LiteralFirst(q[1..] + rest, u[d..][k..]);
        assert u[d..][k..] == tail[d - 1 + k..];
        LeadIsKept(q[1..], rest, s[1..], t, d - 1 + k);
      }
    }
  }

  lemma {:induction false} SomewhereHasWitness(p: string, s: string)
    requires LiteralFirstSomewhere(p, s)
    ensures exists k :: 0 <= k <= |s| && LiteralFirst(p, s[k..])
    decreases |s|
  {
    if LiteralFirst(p, s) {
      assert s[0..] == s;
    } else {
      SomewhereHasWitness(p, s[1..]);
      var k :| 0 <= k <= |s[1..]| && LiteralFirst(p, s[1..][k..]);
      assert s[1..][k..] == s[k + 1..];
    }
  }

  lemma {:induction false} SomewhereAfterLead(q: string, rest: string, s: string, t: string)
    requires StepForStep(q, s)
    requires LiteralFirstSomewhere(q + rest, s + t)
    ensures LiteralFirstSomewhere(rest, t)
  {
    SomewhereHasWitness(q + rest, s + t);
    var d :| 0 <= d <= |s + t| && LiteralFirst(q + rest, (s + t)[d..]);
    LeadIsKept(q, rest, s, t, d);
  }

  /** Giving up an older star for a newer one loses no match and gains none. */
  lemma NewerStarReplacesOlder(q: string, rest: string, s: string, t: string)
    requires StepForStep(q, s)
    requires t == "" || t[0] != '*'
    ensures LiteralFirstSomewhere(q + "*" + rest, s + t) == LiteralFirstSomewhere(rest, t)
  {
    var starred := "*" + rest;
    assert q + "*" + rest == q + starred;
    assert starred[1..] == rest;
    StepForStepAdvances(q, starred, s, t);
    if LiteralFirstSomewhere(q + starred, s + t) {
      SomewhereAfterLead(q, starred, s, t);
      SomewhereHasWitness(starred, t);
      var k :| 0 <= k <= |t| && LiteralFirst(starred, t[k..]);
      if t[k..] != "" && Accepts('*', t[k..][0]) {
        assert t[k..][1..] == t[k + 1..];
        SomewhereFromSuffix(rest, t, k + 1);
      } else {
        SomewhereFromSuffix(rest, t, k);
      }
    }
  }

  /** At the end of the subject a recorded star cannot help: only stars may be left. */
  lemma EndOfSubject(q: string, rest: string, s: string)
    requires StepForStep(q, s)
    ensures LiteralFirstSomewhere(q + rest, s) == LiteralFirst(rest, "")
  {
    assert s + "" == s;
    StepForStepAdvances(q, rest, s, "");
    if LiteralFirstSomewhere(q + rest, s) {
      SomewhereAfterLead(q, rest, s, "");
    }
  }

  lemma {:induction false} EqualStringsMatch(s: string)
    ensures LiteralFirst(s, s)
  {
    StepForStepAdvances(s, "", s, "");
    assert s + "" == s;
  }

  lemma SliceThenSuffix(s: string, i: nat, j: nat)
    requires i <= j <= |s|
    ensures s[i..j] + s[j..] == s[i..]
  {
  }

  lemma StepForStepGrows(p: string, i: nat, j: nat, s: string, k: nat, l: nat)
    requires i <= j < |p| && k <= l < |s|
    requires StepForStep(p[i..j], s[k..l]) && Accepts(p[j], s[l])
    ensures StepForStep(p[i..j + 1], s[k..l + 1])
  {
    assert p[i..j + 1] == p[i..j] + [p[j]] && s[k..l + 1] == s[k..l] + [s[l]];
  }

  /** The loop's invariant: what is still to decide is what `LiteralFirst` decides. */
  ghost predicate Deciding(answer: bool, p: string, s: string, pi: nat, si: nat, starIdx: int, matchIdx: nat) {
    && pi <= |p| && matchIdx <= si <= |s| && -1 <= starIdx < pi
    && (if starIdx == -1 then
          matchIdx == 0 && answer == LiteralFirst(p[pi..], s[si..])
        else
          && StepForStep(p[starIdx + 1..pi], s[matchIdx..si])
          && answer == LiteralFirstSomewhere(p[starIdx + 1..], s[matchIdx..]))
  }

  lemma StepKeepsDeciding(answer: bool, p: string, s: string, pi: nat, si: nat, starIdx: int, matchIdx: nat)
    requires Deciding(answer, p, s, pi, si, starIdx, matchIdx)
    requires pi < |p| && si < |s| && Accepts(p[pi], s[si])
    ensures Deciding(answer, p, s, pi + 1, si + 1, starIdx, matchIdx)
  {
    if starIdx == -1 {
      assert p[pi..][1..] == p[pi + 1..] && s[si..][1..] == s[si + 1..];
    } else {
      StepForStepGrows(p, starIdx + 1, pi, s, matchIdx, si);
    }
  }

  lemma StarKeepsDeciding(answer: bool, p: string, s: string, pi: nat, si: nat, starIdx: int, matchIdx: nat)
    requires Deciding(answer, p, s, pi, si, starIdx, matchIdx)
    requires pi < |p| && si < |s| && p[pi] == '*' && s[si] != '*'
    ensures Deciding(answer, p, s, pi + 1, si, pi, si)
  {
    assert p[pi..] == "*" + p[pi + 1..];
    if starIdx != -1 {
      var q := p[starIdx + 1..pi];
      NewerStarReplacesOlder(q, p[pi + 1..], s[matchIdx..si], s[si..]);
      SliceThenSuffix(p, starIdx + 1, pi);
      assert q + "*" + p[pi + 1..] == q + p[pi..];
      SliceThenSuffix(s, matchIdx, si);
    }
  }

  lemma BacktrackKeepsDeciding(answer: bool, p: string, s: string, pi: nat, si: nat, starIdx: nat, matchIdx: nat)
    requires Deciding(answer, p, s, pi, si, starIdx, matchIdx)
    requires si < |s| && (pi < |p| ==> !Accepts(p[pi], s[si]) && p[pi] != '*')
    ensures Deciding(answer, p, s, starIdx + 1, matchIdx + 1, starIdx, matchIdx + 1)
  {
    StepForStepAdvances(p[starIdx + 1..pi], p[pi..], s[matchIdx..si], s[si..]);
    SliceThenSuffix(p, starIdx + 1, pi);
    SliceThenSuffix(s, matchIdx, si);
    assert s[matchIdx..][1..] == s[matchIdx + 1..];
  }

  lemma {:induction false} OnlyStarsMatchNothing(p: string)
    ensures LiteralFirst(p, "") == forall i :: 0 <= i < |p| ==> p[i] == '*'
    decreases |p|
  {
    if p != "" {
      OnlyStarsMatchNothing(p[1..]);
    }
  }

  lemma EndDecides(answer: bool, p: string, s: string, pi: nat, starIdx: int, matchIdx: nat)
    requires Deciding(answer, p, s, pi, |s|, starIdx, matchIdx)
    ensures answer == forall i :: pi <= i < |p| ==> p[i] == '*'
  {
    OnlyStarsMatchNothing(p[pi..]);
    assert (forall i :: 0 <= i < |p[pi..]| ==> p[pi..][i] == '*') ==>
           forall i :: pi <= i < |p| ==> p[i] == p[pi..][i - pi];
    if starIdx != -1 {
      EndOfSubject(p[starIdx + 1..pi], p[pi..], s[matchIdx..]);
      SliceThenSuffix(p, starIdx + 1, pi);
    }
  }

  lemma DeadEnd(answer: bool, p: string, s: string, pi: nat, si: nat)
    requires Deciding(answer, p, s, pi, si, -1, 0)
    requires si < |s| && (pi < |p| ==> !Accepts(p[pi], s[si]) && p[pi] != '*')
    ensures !answer
  {
  }

  /** wildcardMatch's first loop: walk the subject with one backtrack point. */
  method WalkSubject(pattern: string, s: string) returns (ok: bool, pi: int)
    ensures 0 <= pi <= |pattern|
    ensures LiteralFirst(pattern, s) == (ok && forall i :: pi <= i < |pattern| ==> pattern[i] == '*')
  {
    ghost var answer := LiteralFirst(pattern, s);
    pi := 0;
    var si := 0;
    var starIdx, matchIdx := -1, 0;
    while si < |s|
      invariant 0 <= pi && 0 <= si && 0 <= matchIdx
      invariant Deciding(answer, pattern, s, pi, si, starIdx, matchIdx)
      decreases |s| - matchIdx, |pattern| - pi
    {
      if pi < |pattern| && (pattern[pi] == '?' || pattern[pi] == s[si]) {
        StepKeepsDeciding(answer, pattern, s, pi, si, starIdx, matchIdx);
        pi := pi + 1;
        si := si + 1;
      } else if pi < |pattern| && pattern[pi] == '*' {
        StarKeepsDeciding(answer, pattern, s, pi, si, starIdx, matchIdx);
        starIdx := pi;
        matchIdx := si;
        pi := pi + 1;
      } else if starIdx != -1 {
        BacktrackKeepsDeciding(answer, pattern, s, pi, si, starIdx, matchIdx);
        pi := starIdx + 1;
        matchIdx := matchIdx + 1;
        si := matchIdx;
      } else {
        DeadEnd(answer, pattern, s, pi, si);
        return false, pi;
      }
    }
    EndDecides(answer, pattern, s, pi, starIdx, matchIdx);
    ok := true;
  }

  /** wildcardMatch: fast paths, the walk, and the stars left at the end of the pattern. */
  method WildcardMatch(pattern: string, s: string) returns (r: bool)
    ensures r == WildcardMatches(pattern, s)
  {
    if pattern == "*" {
      return true;
    }
    if pattern == s {
      EqualStringsMatch(s);
      return true;
    }
    var ok, pi := WalkSubject(pattern, s);
    if !ok {
      return false;
    }
    while pi < |pattern| && pattern[pi] == '*'
      invariant 0 <= pi <= |pattern|
      invariant LiteralFirst(pattern, s) == forall i :: pi <= i < |pattern| ==> pattern[i] == '*'
    {
      pi := pi + 1;
    }
    return pi == |pattern|;
  }

  lemma {:induction false} GlobStarSkips(p: string, s: string, k: nat)
    requires k <= |s| && p != "" && p[0] == '*'
    requires Glob(p[1..], s[k..])
    ensures Glob(p, s)
    decreases k
  {
    if k == 0 {
      assert s[k..] == s;
    } else {
      assert s[1..][k - 1..] == s[k..];
      GlobStarSkips(p, s[1..], k - 1);
    }
  }

  lemma {:induction false} LiteralFirstIsSound(p: string, s: string)
    requires LiteralFirst(p, s)
    ensures Glob(p, s)
    decreases |p|
  {
    if p == "" {
    } else if s != "" && Accepts(p[0], s[0]) {
      LiteralFirstIsSound(p[1..], s[1..]);
      if p[0] == '*' {
        GlobStarSkips(p, s, 1);
      }
    } else {
      SomewhereHasWitness(p[1..], s);
      var k :| 0 <= k <= |s| && LiteralFirst(p[1..], s[k..]);
      LiteralFirstIsSound(p[1..], s[k..]);
      GlobStarSkips(p, s, k);
    }
  }

  lemma {:induction false} StarAloneMatchesAll(s: string)
    ensures Glob("*", s)
    decreases |s|
  {
    assert "*"[1..] == "";
    if s != "" {
      StarAloneMatchesAll(s[1..]);
    }
  }

  /** A positive answer always means a match, whatever the subject. */
  lemma WildcardSound(p: string, s: string)
    requires WildcardMatches(p, s)
    ensures Glob(p, s)
  {
    if p == "*" {
      StarAloneMatchesAll(s);
    } else {
      LiteralFirstIsSound(p, s);
    }
  }

  lemma {:induction false} CompleteWithoutStars(p: string, s: string)
    requires '*' !in s
    requires Glob(p, s)
    ensures LiteralFirst(p, s)
    decreases |p| + |s|
  {
    if p == "" {
    } else if p[0] == '*' {
      if Glob(p[1..], s) {
        CompleteWithoutStars(p[1..], s);
      } else {
        CompleteWithoutStars(p, s[1..]);
        SomewhereFromSuffix(p[1..], s, 1);
      }
    } else {
      CompleteWithoutStars(p[1..], s[1..]);
    }
  }

  function Marks(n: nat): (r: string)
    ensures |r| == n && forall i :: 0 <= i < n ==> r[i] == '?'
  {
    seq(n, i => '?')
  }

  lemma {:induction false} MarksGlob(p: string, s: string, x: string)
    requires |p| == |s| && forall i :: 0 <= i < |p| ==> Accepts(p[i], s[i]) && p[i] != '*'
    ensures Glob(p + x, s) == Glob(x, "")
    decreases |p|
  {
    if p == "" {
      assert p + x == x;
    } else {
      assert (p + x)[1..] == p[1..] + x;
      MarksGlob(p[1..], s[1..], x);
    }
  }

  lemma {:induction false} PrefixGlob(p: string, s: string, x: string, y: string)
    requires StepForStep(p, s)
    requires Glob(x, y)
    ensures Glob(p + x, s + y)
    decreases |p|
  {
    if p == "" {
      assert p + x == x && s + y == y;
    } else {
      assert (p + x)[1..] == p[1..] + x && (s + y)[1..] == s[1..] + y;
      PrefixGlob(p[1..], s[1..], x, y);
      if p[0] == '*' {
        GlobStarSkips(p + x, s + y, 1);
      }
    }
  }

  lemma {:induction false} StarFreeNeedsEqualLength(p: string, s: string)
    requires '*' !in p
    requires LiteralFirst(p, s)
    ensures |p| == |s|
    decreases |p|
  {
    if p != "" && s != "" && Accepts(p[0], s[0]) {
      StarFreeNeedsEqualLength(p[1..], s[1..]);
    }
  }

  /** For a subject with a '*' at `i`, a pattern that matches it and is rejected. */
  lemma StarInSubjectDefeats(s: string, i: nat)
    requires i < |s| && s[i] == '*'
    ensures var p := Marks(i) + "*" + Marks(|s| - i);
            Glob(p, s) && !WildcardMatches(p, s)
  {
    var rest := Marks(|s| - i);
    var p := Marks(i) + "*" + rest;
    var y := s[i..];
    assert s == s[..i] + y;
    assert p == Marks(i) + ("*" + rest);
    assert ("*" + rest)[1..] == rest;
    assert y == rest[..0] + y;
    MarksGlob(rest, y, "");
    assert rest + "" == rest;
    GlobStarSkips("*" + rest, y, 0);
    PrefixGlob(Marks(i), s[..i], "*" + rest, y);
    StepForStepAdvances(Marks(i), "*" + rest, s[..i], y);
    if LiteralFirst(p, s) {
      StarFreeNeedsEqualLength(rest, y[1..]);
    }
  }

  /** wildcardMatch is right for every pattern exactly on the subjects without a '*'. */
  lemma RightForEveryPattern(s: string)
    ensures (forall p :: WildcardMatches(p, s) == Glob(p, s)) <==> '*' !in s
  {
    if '*' in s {
      var i :| 0 <= i < |s| && s[i] == '*';
      StarInSubjectDefeats(s, i);
    } else {
      forall p ensures WildcardMatches(p, s) == Glob(p, s) {
        if WildcardMatches(p, s) { WildcardSound(p, s); }
        if Glob(p, s) { CompleteWithoutStars(p, s); }
      }
    }
  }

  /** For a pattern whose last star is at `i`, a subject that matches it and is rejected. */
  lemma StarInPatternDefeats(p: string, i: nat)
    requires i < |p| && p[i] == '*' && '*' !in p[i + 1..] && p != "*"
    ensures var s := p[..i] + ("**" + p[i + 1..]);
            Glob(p, s) && !WildcardMatches(p, s)
  {
    var tail := p[i..];
    var t := "**" + p[i + 1..];
    assert p == p[..i] + tail;
    LongerTailMatchesAndFails(tail);
    PrefixGlob(p[..i], p[..i], tail, t);
    StepForStepAdvances(p[..i], tail, p[..i], t);
  }

  lemma LongerTailMatchesAndFails(tail: string)
    requires tail != "" && tail[0] == '*' && '*' !in tail[1..]
    ensures Glob(tail, "**" + tail[1..]) && !LiteralFirst(tail, "**" + tail[1..])
  {
    var rest := tail[1..];
    var s := "**" + rest;
    assert s[1..] == "*" + rest && s[2..] == rest;
    PrefixGlob(rest, rest, "", "");
    assert rest + "" == rest;
    GlobStarSkips(tail, s, 2);
    if LiteralFirst(rest, s[1..]) {
      StarFreeNeedsEqualLength(rest, s[1..]);
    }
  }

  lemma {:induction false} LastStar(p: string) returns (i: nat)
    requires '*' in p
    ensures i < |p| && p[i] == '*' && '*' !in p[i + 1..]
    decreases |p|
  {
    if '*' in p[1..] {
      i := LastStar(p[1..]);
      assert p[1..][i + 1..] == p[i + 2..];
      i := i + 1;
    } else {
      i := 0;
    }
  }

  lemma {:induction false} StarFreePatternIsExact(p: string, s: string)
    requires '*' !in p
    ensures LiteralFirst(p, s) == Glob(p, s)
    decreases |p|
  {
    if p != "" && s != "" && Accepts(p[0], s[0]) {
      StarFreePatternIsExact(p[1..], s[1..]);
    }
  }

  /** It is right for every subject exactly on "*" itself and the patterns without a '*'. */
  lemma RightForEverySubject(p: string)
    ensures (forall s :: WildcardMatches(p, s) == Glob(p, s)) <==> (p == "*" || '*' !in p)
  {
    if p == "*" {
      forall s ensures WildcardMatches(p, s) == Glob(p, s) { WildcardSound(p, s); }
    } else if '*' in p {
      var i := LastStar(p);
      StarInPatternDefeats(p, i);
    } else {
      forall s ensures WildcardMatches(p, s) == Glob(p, s) { StarFreePatternIsExact(p, s); }
    }
  }
}
