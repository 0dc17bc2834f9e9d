/**
 The pattern matcher of `CONFIG GET`: a single loop that backtracks only to the
 last star, against the recursive meaning of `*` and `?`.
 */
module Glob {

  function Upper(c: char): char {
    if 'a' <= c <= 'z' then c - 'a' + 'A' else c
  }

  /** Pattern character `p`, not a star, accepts `c`: `?` accepts all, letters ignore ASCII case. */
  predicate Accepts(p: char, c: char) {
    p == '?' || Upper(p) == Upper(c)
  }

  /** The meaning of a pattern: `*` stands for any run of characters. */
  predicate Matches(p: string, t: string)
    decreases |p| + |t|
  {
    if p == "" then t == ""
    else if p[0] == '*' then Matches(p[1..], t) || (t != "" && Matches(p, t[1..]))
    else t != "" && Accepts(p[0], t[0]) && Matches(p[1..], t[1..])
  }

  predicate AllStars(p: string) {
    forall i :: 0 <= i < |p| ==> p[i] == '*'
  }

  predicate NoStar(s: string) {
    forall i :: 0 <= i < |s| ==> s[i] != '*'
  }

  lemma {:induction false} MatchesEmpty(p: string)
    ensures Matches(p, "") <==> AllStars(p)
  {
    if p != "" {
      MatchesEmpty(p[1..]);
      if p[0] == '*' && AllStars(p[1..]) {
        forall i | 0 <= i < |p| ensures p[i] == '*' {
          if i > 0 { assert p[i] == p[1..][i - 1]; }
        }
      }
    }
  }

  /** A leading star accepts any longer text: it can swallow the extra prefix. */
  lemma {:induction false} StarAbsorbs(p: string, t: string, k: nat)
    requires p != "" && p[0] == '*' && k <= |t| && Matches(p, t[k..])
    ensures Matches(p, t)
    decreases k
  {
    if k == 0 {
      assert t[0..] == t;
    } else {
      assert t[1..][k - 1..] == t[k..];
      StarAbsorbs(p, t[1..], k - 1);
    }
  }

  /** A star-free stretch of the pattern consumes exactly as many characters as it has. */
  lemma {:induction false} Consumes(seg: string, rest: string, t: string)
    requires NoStar(seg) && Matches(seg + rest, t)
    ensures |seg| <= |t| && Matches(rest, t[|seg|..])
    decreases |seg|
  {
    if seg == "" {
      assert seg + rest == rest && t[0..] == t;
    } else {
      assert (seg + rest)[1..] == seg[1..] + rest;
      assert (seg + rest)[0] == seg[0];
      Consumes(seg[1..], rest, t[1..]);
      assert t[1..][|seg| - 1..] == t[|seg|..];
    }
  }

  /** A star followed by a star-free stretch and more: the stretch ends somewhere later in the text. */
  lemma {:induction false} StarThen(seg: string, rest: string, t: string) returns (k: nat)
    requires NoStar(seg) && Matches("*" + seg + rest, t)
    ensures |seg| <= k <= |t| && Matches(rest, t[k..])
    decreases |t|
  {
    var p := "*" + seg + rest;
    assert p[1..] == seg + rest;
    if Matches(p[1..], t) {
      Consumes(seg, rest, t);
      k := |seg|;
    } else {
      var j := StarThen(seg, rest, t[1..]);
      k := j + 1;
      assert t[1..][j..] == t[k..];
    }
  }

  /**
   Backtracking to an older star is never needed. Pattern[s] is the last star met, the
   characters after it up to `p` matched from text index `st` up to `t`; if putting that star
   further on succeeds and a new star follows at `p`, the present attempt succeeds as well.
   */
  lemma LastStarSuffices(pattern: string, text: string, s: nat, st: nat, p: nat, t: nat)
    requires s < p < |pattern| && st <= t <= |text| && p - s - 1 == t - st
    requires pattern[s] == '*' && NoStar(pattern[s + 1..p]) && pattern[p] == '*'
    requires st < |text| && Matches(pattern[s..], text[st + 1..])
    ensures Matches(pattern[p..], text[t..])
  {
    var seg, rest := pattern[s + 1..p], pattern[p..];
    assert pattern[s..] == "*" + seg + rest;
    var k := StarThen(seg, rest, text[st + 1..]);
    assert text[st + 1..][k..] == text[st + 1 + k..];
    assert text[t..][st + 1 + k - t..] == text[st + 1 + k..];
    StarAbsorbs(rest, text[t..], st + 1 + k - t);
  }

  /** At the end of the text there is no room left for a later placement of the last star. */
  lemma NoRoomLeft(pattern: string, text: string, s: nat, st: nat, p: nat)
    requires s < p <= |pattern| && st < |text| && p - s - 1 == |text| - st
    requires pattern[s] == '*' && NoStar(pattern[s + 1..p])
    ensures !Matches(pattern[s..], text[st + 1..])
  {
    if Matches(pattern[s..], text[st + 1..]) {
      assert pattern[s..] == "*" + pattern[s + 1..p] + pattern[p..];
      var k := StarThen(pattern[s + 1..p], pattern[p..], text[st + 1..]);
      assert false;
    }
  }

  /** The character test of the loop: it does not look whether the pattern character is a star. */
  predicate CharStep(pattern: string, text: string, p: nat, t: nat)
    requires t < |text|
  {
    p < |pattern| && Accepts(pattern[p], text[t])
  }

  /** The loop's state: a star has been met or not, and the present attempt is equivalent to the question. */
  ghost predicate LoopInv(pattern: string, text: string, p: nat, t: nat, star: bool, s: nat, st: nat) {
    && p <= |pattern| && t <= |text|
    && if !star then Matches(pattern, text) == Matches(pattern[p..], text[t..])
       else
         && s < p && st <= t && p - s - 1 == t - st && pattern[s] == '*' && NoStar(pattern[s + 1..p])
         && Matches(pattern, text) ==
            (Matches(pattern[p..], text[t..]) || (st < |text| && Matches(pattern[s..], text[st + 1..])))
  }

  lemma AcceptStep(pattern: string, text: string, p: nat, t: nat, star: bool, s: nat, st: nat)
    requires LoopInv(pattern, text, p, t, star, s, st)
    requires t < |text| && CharStep(pattern, text, p, t) && pattern[p] != '*'
    ensures LoopInv(pattern, text, p + 1, t + 1, star, s, st)
  {
    assert pattern[p..][1..] == pattern[p + 1..] && text[t..][1..] == text[t + 1..];
    if star {
      assert pattern[s + 1..p + 1] == pattern[s + 1..p] + [pattern[p]];
    }
  }

  lemma StarStep(pattern: string, text: string, p: nat, t: nat, star: bool, s: nat, st: nat)
    requires LoopInv(pattern, text, p, t, star, s, st)
    requires t < |text| && p < |pattern| && pattern[p] == '*'
    ensures LoopInv(pattern, text, p + 1, t, true, p, t)
  {
    assert pattern[p..][1..] == pattern[p + 1..] && text[t..][1..] == text[t + 1..];
    if star && st < |text| && Matches(pattern[s..], text[st + 1..]) {
      LastStarSuffices(pattern, text, s, st, p, t);
    }
  }

  lemma BacktrackStep(pattern: string, text: string, p: nat, t: nat, s: nat, st: nat)
    requires LoopInv(pattern, text, p, t, true, s, st)
    requires t < |text| && !CharStep(pattern, text, p, t) && (p < |pattern| ==> pattern[p] != '*')
    ensures LoopInv(pattern, text, s + 1, st + 1, true, s, st + 1)
  {
    assert pattern[s..][1..] == pattern[s + 1..];
    assert st + 1 < |text| ==> text[st + 1..][1..] == text[st + 2..];
  }

  /** The loop as a function of its variables; `star` tells whether `s` and `st` are set. */
  function Loop(pattern: string, text: string, p: nat, t: nat, star: bool, s: nat, st: nat): (ok: bool)
    requires p <= |pattern| && t <= |text| && (star ==> s < p && st <= t)
    decreases if star then |text| - st else |text| + 1, |pattern| - p
  {
    if t == |text| then AllStars(pattern[p..])
    else if CharStep(pattern, text, p, t) then Loop(pattern, text, p + 1, t + 1, star, s, st)
    else if p < |pattern| && pattern[p] == '*' then Loop(pattern, text, p + 1, t, true, p, t)
    else if star then Loop(pattern, text, s + 1, st + 1, true, s, st + 1)
    else false
  }

  /** What the matcher answers. */
  function Glob(pattern: string, text: string): (ok: bool) {
    Loop(pattern, text, 0, 0, false, 0, 0)
  }

  /** `GlobMatchCaseInsensitive`. */
  method GlobMatch(pattern: string, text: string) returns (ok: bool)
    ensures ok == Glob(pattern, text)
    ensures NoStar(text) ==> (ok <==> Matches(pattern, text))
  {
    if NoStar(text) {
      assert pattern[0..] == pattern && text[0..] == text;
      LoopDecides(pattern, text, 0, 0, false, 0, 0);
    }
    var p, t, star, s, st := 0, 0, false, 0, 0;
    while t < |text|
      invariant p <= |pattern| && t <= |text| && (star ==> s < p && st <= t)
      invariant Glob(pattern, text) == Loop(pattern, text, p, t, star, s, st)
      decreases if star then |text| - st else |text| + 1, |pattern| - p
    {
      if p < |pattern| && (pattern[p] == '?' || Upper(pattern[p]) == Upper(text[t])) {
        p, t := p + 1, t + 1;
      } else if p < |pattern| && pattern[p] == '*' {
        star, s, p, st := true, p, p + 1, t;
      } else if star {
        st := st + 1;
        p, t := s + 1, st;
      } else {
        return false;
      }
    }
    ghost var p0 := p;
    while p < |pattern| && pattern[p] == '*'
      invariant p0 <= p <= |pattern|
      invariant forall i :: p0 <= i < p ==> pattern[i] == '*'
    {
      p := p + 1;
    }
    ok := p == |pattern|;
    assert !ok ==> pattern[p0..][p - p0] != '*';
  }

  lemma {:induction false} LoopDecides(pattern: string, text: string, p: nat, t: nat, star: bool, s: nat, st: nat)
    requires NoStar(text) && LoopInv(pattern, text, p, t, star, s, st)
    ensures Loop(pattern, text, p, t, star, s, st) == Matches(pattern, text)
    decreases if star then |text| - st else |text| + 1, |pattern| - p
  {
    if t == |text| {
      MatchesEmpty(pattern[p..]);
      assert text[t..] == "";
      if star && st < |text| { NoRoomLeft(pattern, text, s, st, p); }
    } else if CharStep(pattern, text, p, t) {
      AcceptStep(pattern, text, p, t, star, s, st);
      LoopDecides(pattern, text, p + 1, t + 1, star, s, st);
    } else if p < |pattern| && pattern[p] == '*' {
      StarStep(pattern, text, p, t, star, s, st);
      LoopDecides(pattern, text, p + 1, t, true, p, t);
    } else if star {
      BacktrackStep(pattern, text, p, t, s, st);
      LoopDecides(pattern, text, s + 1, st + 1, true, s, st + 1);
    }
  }

  // ----- texts that contain a star -----

  function Questions(n: nat): (q: string)
    ensures |q| == n && forall i :: 0 <= i < n ==> q[i] == '?'
  {
    if n == 0 then "" else "?" + Questions(n - 1)
  }

  /** If every character is accepted in turn, the loop walks straight to the end of the text. */
  lemma {:induction false} StraightWalk(pattern: string, text: string, k: nat)
    requires k <= |text| <= |pattern|
    requires forall i :: 0 <= i < |text| ==> Accepts(pattern[i], text[i])
    ensures Loop(pattern, text, k, k, false, 0, 0) == AllStars(pattern[|text|..])
    decreases |text| - k
  {
    if k < |text| { StraightWalk(pattern, text, k + 1); }
  }

  lemma {:induction false} SamePrefix(u: string, p: string, t: string)
    requires Matches(p, t)
    ensures Matches(u + p, u + t)
    decreases |u|
  {
    if u == "" {
      assert u + p == p && u + t == t;
    } else {
      SamePrefix(u[1..], p, t);
      assert (u + p)[1..] == u[1..] + p && (u + t)[1..] == u[1..] + t;
      assert Matches((u + p)[1..], (u + t)[1..]);
      assert (u + p)[0] == u[0] == (u + t)[0];
      if u[0] == '*' { assert Matches(u + p, (u + t)[1..]); }
    }
  }

  lemma {:induction false} QuestionsMatch(t: string)
    ensures Matches(Questions(|t|), t)
  {
    if t != "" {
      QuestionsMatch(t[1..]);
      assert Questions(|t|)[1..] == Questions(|t| - 1);
    }
  }

  /**
   A star in the text can be taken for a literal match of a star in the pattern, which then
   no longer counts as a star: for each such text some pattern is answered wrongly.
   */
  lemma StarInTextMisleads(text: string, k: nat)
    requires k < |text| && text[k] == '*'
    ensures exists pattern :: Matches(pattern, text) && !Glob(pattern, text)
  {
    var q := Questions(|text| - k);
    var pattern := text[..k] + ("*" + q);
    assert text == text[..k] + text[k..];
    assert ("*" + q)[1..] == q;
    QuestionsMatch(text[k..]);
    SamePrefix(text[..k], "*" + q, text[k..]);
    StraightWalk(pattern, text, 0);
    assert pattern[|text|..][0] == '?';
    assert Matches(pattern, text) && !Glob(pattern, text);
  }

  /** The matcher is right for every pattern exactly on the texts without a star. */
  lemma GlobIsExactWithoutStars(text: string)
    ensures (forall pattern :: Glob(pattern, text) <==> Matches(pattern, text)) <==> NoStar(text)
  {
    if NoStar(text) {
      forall pattern: string ensures Glob(pattern, text) <==> Matches(pattern, text) {
        assert pattern[0..] == pattern && text[0..] == text;
        LoopDecides(pattern, text, 0, 0, false, 0, 0);
      }
    } else {
      var k :| 0 <= k < |text| && text[k] == '*';
      StarInTextMisleads(text, k);
    }
  }
}
