/**
  Glob patterns as token sequences, what it means for a string to match one (POSIX.1 Shell and
  Utilities section 2.13), what the single restart point of ACE::wild_match computes instead, and
  for exactly which patterns the two agree.
 */
module Glob {
  import opened Characters

  /** The characters of C strings: eight bits, and not the terminating NUL. */
  predicate IsChar(c: char) {
    '\0' < c < 256 as char
  }

  ghost predicate CString(s: string) {
    forall i | 0 <= i < |s| :: IsChar(s[i])
  }

  /** The character that has a value of plain `char`, signed or unsigned. */
  function CharOf(value: int): char {
    if 0 <= value < 256 then value as char else if -256 <= value < 0 then (value + 256) as char else '\0'
  }

  /** One element of a bracket expression. A range "a-z" is the element `a` followed by everything whose
      value lies above that of `a`, up to that of `z`. */
  datatype Item = One(c: char) | Above(lo: int, hi: int)

  datatype Token =
    | Literal(c: char)
    | AnyChar
    | Class(negated: bool, items: seq<Item>)
    | Star
    | Never

  predicate EqualChar(a: char, b: char, caseSensitive: bool) {
    if caseSensitive then a == b else Lower(a) == Lower(b)
  }

  lemma EqualCharMeans(a: char, b: char, caseSensitive: bool)
    ensures EqualChar(a, b, caseSensitive) <==> a == b || (!caseSensitive && (TwoCases(a, b) || TwoCases(b, a)))
  {
    SameLetter(a, b);
    hide TwoCases;
  }

  ghost predicate Has(item: Item, c: char, caseSensitive: bool) {
    match item
    case One(x) => EqualChar(c, x, caseSensitive)
    case Above(lo, hi) => exists value | lo < value <= hi :: EqualChar(c, CharOf(value), caseSensitive)
  }

  ghost predicate InItems(items: seq<Item>, c: char, caseSensitive: bool) {
    exists item | item in items :: Has(item, c, caseSensitive)
  }

  /** Whether a token other than a star matches a character. */
  ghost predicate Admits(t: Token, c: char, caseSensitive: bool) {
    match t
    case Literal(x) => EqualChar(c, x, caseSensitive)
    case AnyChar => true
    case Class(negated, items) => InItems(items, c, caseSensitive) != negated
    case Star => false
    case Never => false
  }

  /** The declarative meaning of a pattern. */
  ghost predicate Matches(s: string, p: seq<Token>, caseSensitive: bool)
    decreases |p|
  {
    if p == [] then s == []
    else if p[0].Star? then exists k | 0 <= k <= |s| :: Matches(s[k..], p[1..], caseSensitive)
    else s != [] && Admits(p[0], s[0], caseSensitive) && Matches(s[1..], p[1..], caseSensitive)
  }

  /** Where to resume after a mismatch: nowhere, or right after the last star met. */
  datatype Restart = Fail | After(tokens: seq<Token>)

  function DropStars(p: seq<Token>): (q: seq<Token>)
    ensures |q| <= |p| && (q != [] ==> !q[0].Star?)
  {
    if p != [] && p[0].Star? then DropStars(p[1..]) else p
  }

  /** What wild_match computes: on a mismatch it drops the current character and starts over after
      the last star. */
  ghost predicate Run(s: string, p: seq<Token>, restart: Restart, caseSensitive: bool)
    decreases |s|, |p|
  {
    if s == [] then DropStars(p) == []
    else if p != [] && p[0].Star? then
      var rest := DropStars(p);
      rest == [] || (|rest| < |p| && Run(s, rest, After(rest), caseSensitive))
    else if p != [] && Admits(p[0], s[0], caseSensitive) then Run(s[1..], p[1..], restart, caseSensitive)
    else restart.After? && Run(s[1..], restart.tokens, restart, caseSensitive)
  }

  // ----- Patterns alike

  ghost predicate SameToken(a: Token, b: Token, cs: bool) {
    (a.Star? <==> b.Star?) && forall c :: Admits(a, c, cs) <==> Admits(b, c, cs)
  }

  /** Token by token, the patterns match the same characters. */
  ghost predicate Alike(p: seq<Token>, q: seq<Token>, cs: bool) {
    |p| == |q| && forall i | 0 <= i < |p| :: SameToken(p[i], q[i], cs)
  }

  lemma AlikeCons(a: Token, b: Token, p: seq<Token>, q: seq<Token>, cs: bool)
    requires SameToken(a, b, cs) && Alike(p, q, cs)
    ensures Alike([a] + p, [b] + q, cs)
  {
    hide SameToken;
  }

  lemma AlikeTail(p: seq<Token>, q: seq<Token>, cs: bool)
    requires Alike(p, q, cs) && p != []
    ensures q != [] && SameToken(p[0], q[0], cs) && Alike(p[1..], q[1..], cs)
  {
    hide SameToken;
  }

  lemma {:induction false} AlikeDropStars(p: seq<Token>, q: seq<Token>, cs: bool)
    requires Alike(p, q, cs)
    ensures Alike(DropStars(p), DropStars(q), cs) && |DropStars(p)| == |DropStars(q)|
    decreases |p|
  {
    hide Admits;
    if p != [] {
      AlikeTail(p, q, cs);
      hide Alike;
      AlikeDropStars(p[1..], q[1..], cs);
    }
  }

  /** The restart matcher gives one answer for patterns alike. */
  lemma {:induction false} AlikeRun(s: string, p: seq<Token>, q: seq<Token>, r: Restart, r': Restart, cs: bool)
    requires Alike(p, q, cs)
    requires (r.After? <==> r'.After?) && (r.After? ==> Alike(r.tokens, r'.tokens, cs))
    ensures Run(s, p, r, cs) <==> Run(s, q, r', cs)
    decreases |s|, |p|
  {
    var (rest, rest') := (DropStars(p), DropStars(q));
    AlikeDropStars(p, q, cs);
    assert |p| == |q|;
    if p != [] {
      AlikeTail(p, q, cs);
    }
    hide Alike, Admits;
    if s != [] {
      if p != [] && p[0].Star? {
        if |rest| < |p| {
          AlikeRun(s, rest, rest', After(rest), After(rest'), cs);
        }
      } else if p != [] && Admits(p[0], s[0], cs) {
        AlikeRun(s[1..], p[1..], q[1..], r, r', cs);
      } else if r.After? {
        AlikeRun(s[1..], r.tokens, r'.tokens, r, r', cs);
      }
    }
  }

  lemma {:induction false} AlikeMatches(s: string, p: seq<Token>, q: seq<Token>, cs: bool)
    requires Alike(p, q, cs)
    ensures Matches(s, p, cs) <==> Matches(s, q, cs)
    decreases |p|
  {
    assert |p| == |q|;
    if p != [] {
      AlikeTail(p, q, cs);
      hide Alike, Admits;
      if p[0].Star? {
        forall k | 0 <= k <= |s| ensures Matches(s[k..], p[1..], cs) <==> Matches(s[k..], q[1..], cs) {
          AlikeMatches(s[k..], p[1..], q[1..], cs);
        }
      } else if s != [] {
        AlikeMatches(s[1..], p[1..], q[1..], cs);
      }
    }
  }

  // ----- Soundness

  lemma {:induction false} DropStarsMatches(s: string, p: seq<Token>, cs: bool)
    requires p != [] && p[0].Star?
    ensures Matches(s, p, cs) <==> Matches(s, [Star] + DropStars(p), cs)
    ensures |DropStars(p)| < |p|
    decreases |p|, 0
  {
    var rest := DropStars(p);
    assert ([Star] + rest)[1..] == rest;
    if p[1..] != [] && p[1].Star? {
      DropStarsSuffixes(s, p[1..], cs);
      if k :| 0 <= k <= |s| && Matches(s[k..], p[1..], cs) {
        var m :| 0 <= m <= |s[k..]| && Matches(s[k..][m..], rest, cs);
        assert s[k..][m..] == s[k + m..];
      }
      if k :| 0 <= k <= |s| && Matches(s[k..], rest, cs) {
        assert s[k..][0..] == s[k..];
        assert Matches(s[k..], [Star] + rest, cs);
      }
    }
  }

  lemma {:induction false} DropStarsSuffixes(s: string, p: seq<Token>, cs: bool)
    requires p != [] && p[0].Star?
    ensures forall k | 0 <= k <= |s| :: Matches(s[k..], p, cs) <==> Matches(s[k..], [Star] + DropStars(p), cs)
    ensures forall k | 0 <= k <= |s| && Matches(s[k..], p, cs) ::
              exists m | 0 <= m <= |s[k..]| :: Matches(s[k..][m..], DropStars(p), cs)
    decreases |p|, 1
  {
    assert ([Star] + DropStars(p))[1..] == DropStars(p);
    forall k | 0 <= k <= |s|
      ensures Matches(s[k..], p, cs) <==> Matches(s[k..], [Star] + DropStars(p), cs)
    {
      DropStarsMatches(s[k..], p, cs);
    }
  }

  /** Whatever matches after dropping characters matches behind a star. */
  lemma StarTakes(s: string, k: nat, q: seq<Token>, cs: bool)
    requires k <= |s| && (Matches(s[k..], q, cs) || Matches(s[k..], [Star] + q, cs))
    ensures Matches(s, [Star] + q, cs)
  {
    assert ([Star] + q)[1..] == q;
    if !Matches(s[k..], q, cs) {
      var m :| 0 <= m <= |s[k..]| && Matches(s[k..][m..], q, cs);
      assert s[k..][m..] == s[k + m..];
    }
  }

  /** Soundness: what the matcher accepts does match. */
  lemma {:induction false} RunSound(s: string, p: seq<Token>, restart: Restart, cs: bool)
    requires Run(s, p, restart, cs)
    ensures Matches(s, p, cs) || (restart.After? && Matches(s, [Star] + restart.tokens, cs))
    decreases |s|, |p|
  {
    if p != [] && p[0].Star? {
      var rest := DropStars(p);
      DropStarsMatches(s, p, cs);
      if rest == [] {
        assert s[|s|..] == [];
        StarTakes(s, |s|, [], cs);
      } else if s != [] {
        RunSound(s, rest, After(rest), cs);
        assert s[0..] == s;
        StarTakes(s, 0, rest, cs);
      }
    } else if s != [] {
      if p != [] && Admits(p[0], s[0], cs) {
        RunSound(s[1..], p[1..], restart, cs);
        if !Matches(s[1..], p[1..], cs) {
          StarTakes(s, 1, restart.tokens, cs);
        }
      } else {
        RunSound(s[1..], restart.tokens, restart, cs);
        StarTakes(s, 1, restart.tokens, cs);
      }
    }
  }

  // ----- Exactness: for which patterns is the restart point good enough?

  function NonStars(p: seq<Token>): nat {
    if p == [] then 0 else NonStars(p[1..]) + if p[0].Star? then 0 else 1
  }

  /** The tokens before the first star, and the rest. */
  function SegmentLength(p: seq<Token>): (n: nat)
    ensures n <= |p| && (forall i | 0 <= i < n :: !p[i].Star?) && (n < |p| ==> p[n].Star?)
  {
    if p == [] || p[0].Star? then 0 else 1 + SegmentLength(p[1..])
  }

  ghost predicate Both(a: Token, b: Token, cs: bool) {
    exists c: char :: IsChar(c) && Admits(a, c, cs) && Admits(b, c, cs)
  }

  ghost predicate OnlyFirst(a: Token, b: Token, cs: bool) {
    exists c: char :: IsChar(c) && Admits(a, c, cs) && !Admits(b, c, cs)
  }

  /** Some text matches the first j tokens, fails token j, and yet from its d-th character on still
      looks like the beginning of the segment. */
  ghost predicate Overlap(t: seq<Token>, d: nat, j: nat, cs: bool) {
    1 <= d <= j < |t| && OnlyFirst(t[j - d], t[j], cs) && forall i | d <= i < j :: Both(t[i], t[i - d], cs)
  }

  ghost predicate Overlaps(t: seq<Token>, cs: bool) {
    exists d: nat, j: nat :: Overlap(t, d, j, cs)
  }

  /** What follows a star must be closed off by another star, and must not overlap itself. */
  ghost predicate SafeAfterStar(q: seq<Token>, cs: bool)
    decreases |q|
  {
    var n := SegmentLength(q);
    n < |q| && !Overlaps(q[..n], cs)
    && (DropStars(q[n..]) == [] || (|DropStars(q[n..])| < |q| && SafeAfterStar(DropStars(q[n..]), cs)))
  }

  ghost predicate Satisfiable(p: seq<Token>, cs: bool) {
    forall i | 0 <= i < |p| && !p[i].Star? :: Both(p[i], p[i], cs)
  }

  /** The patterns for which restarting after the last star loses nothing. */
  ghost predicate Safe(p: seq<Token>, cs: bool) {
    Satisfiable(p, cs) ==>
      var rest := DropStars(p[SegmentLength(p)..]);
      rest == [] || SafeAfterStar(rest, cs)
  }

  lemma {:induction false} MinLength(s: string, p: seq<Token>, cs: bool)
    requires Matches(s, p, cs)
    ensures NonStars(p) <= |s|
    decreases |p|
  {
    if p != [] {
      if p[0].Star? {
        var k :| 0 <= k <= |s| && Matches(s[k..], p[1..], cs);
        MinLength(s[k..], p[1..], cs);
      } else {
        MinLength(s[1..], p[1..], cs);
      }
    }
  }

  lemma MinLengthStar(s: string, q: seq<Token>, cs: bool)
    requires Matches(s, [Star] + q, cs)
    ensures NonStars(q) <= |s|
  {
    assert ([Star] + q)[1..] == q;
    MinLength(s, [Star] + q, cs);
  }

  lemma ShortFails(s: string, q: seq<Token>, cs: bool)
    requires |s| < NonStars(q)
    ensures !Run(s, q, After(q), cs)
  {
    if Run(s, q, After(q), cs) {
      RunSound(s, q, After(q), cs);
      if Matches(s, q, cs) {
        MinLength(s, q, cs);
      } else {
        MinLengthStar(s, q, cs);
      }
    }
  }

  /** Matching a star-free segment is matching it character by character. */
  ghost predicate Fits(s: string, t: seq<Token>, cs: bool) {
    |t| <= |s| && forall i | 0 <= i < |t| :: Admits(t[i], s[i], cs)
  }

  lemma {:induction false} MatchesSegment(s: string, n: nat, q: seq<Token>, cs: bool)
    requires n <= |q| && forall i | 0 <= i < n :: !q[i].Star?
    ensures Matches(s, q, cs) <==> Fits(s, q[..n], cs) && Matches(s[n..], q[n..], cs)
    decreases n
  {
    if n == 0 {
      assert s[0..] == s && q[0..] == q;
    } else if s != [] {
      MatchesSegment(s[1..], n - 1, q[1..], cs);
      assert q[1..][n - 1..] == q[n..];
      if n <= |s| {
        assert s[1..][n - 1..] == s[n..];
        assert Fits(s, q[..n], cs) <==> Admits(q[0], s[0], cs) && Fits(s[1..], q[1..][..n - 1], cs) by {
          if Admits(q[0], s[0], cs) && Fits(s[1..], q[1..][..n - 1], cs) {
            forall i | 0 <= i < n ensures Admits(q[i], s[i], cs) {
              if i > 0 { assert Admits(q[1..][..n - 1][i - 1], s[1..][i - 1], cs); }
            }
          }
          if Fits(s, q[..n], cs) {
            assert Admits(q[..n][0], s[0], cs);
            forall i | 0 <= i < n - 1 ensures Admits(q[1..][..n - 1][i], s[1..][i], cs) {
              assert Admits(q[..n][i + 1], s[i + 1], cs);
            }
          }
        }
      }
    }
  }

  lemma StarSplit(s: string, q: seq<Token>, cs: bool) returns (k: nat)
    requires Matches(s, [Star] + q, cs)
    ensures k <= |s| && Matches(s[k..], q, cs)
  {
    assert ([Star] + q)[1..] == q;
    k :| 0 <= k <= |s| && Matches(s[k..], q, cs);
  }

  /** A text behind a star: the segment fits somewhere, and the rest matches from there on. */
  lemma SegmentBehindStar(s: string, q: seq<Token>, cs: bool) returns (k: nat)
    requires Matches(s, [Star] + q, cs)
    ensures var n := SegmentLength(q);
      k + n <= |s| && Fits(s[k..], q[..n], cs) && Matches(s[k + n..], q[n..], cs)
  {
    hide Matches, Admits;
    k := StarSplit(s, q, cs);
    var n := SegmentLength(q);
    MatchesSegment(s[k..], n, q, cs);
    assert s[k..][n..] == s[k + n..];
  }

  lemma FitsExtended(w: string, v: string, t: seq<Token>, cs: bool)
    requires Fits(w, t, cs)
    ensures Fits(w + v, t, cs)
  {}

  lemma FitsBehindStar(s: string, k: nat, q: seq<Token>, cs: bool)
    requires var n := SegmentLength(q);
      k + n <= |s| && Fits(s[k..], q[..n], cs) && Matches(s[k + n..], q[n..], cs)
    ensures Matches(s, [Star] + q, cs)
  {
    hide Matches, Fits, Admits;
    var n := SegmentLength(q);
    assert s[k..][n..] == s[k + n..];
    MatchesSegment(s[k..], n, q, cs);
    StarTakes(s, k, q, cs);
  }

  /** The characters read since the restart fit the beginning of q. */
  ghost predicate Reading(u: string, q: seq<Token>, cs: bool) {
    |u| <= SegmentLength(q) && forall i | 0 <= i < |u| :: Admits(q[i], u[i], cs)
  }

  /** Where a segment without overlaps fits, it fits beyond the mismatch. */
  lemma FitsBeyondMismatch(u: string, s: string, q: seq<Token>, k: nat, cs: bool)
    requires Reading(u, q, cs) && |u| < SegmentLength(q) && s != [] && CString(u) && CString(s)
    requires !Admits(q[|u|], s[0], cs)
    requires !Overlaps(q[..SegmentLength(q)], cs)
    requires k <= |u + s| && Fits((u + s)[k..], q[..SegmentLength(q)], cs)
    ensures |u| < k
  {
    if k <= |u| {
      var n, j, text := SegmentLength(q), |u|, u + s;
      var t := q[..n];
      assert text[k..][j - k] == s[0];
      assert Admits(t[j - k], s[0], cs);
      assert s[0] in text && IsChar(s[0]);
      if k > 0 {
        assert OnlyFirst(t[j - k], t[j], cs);
        forall i | k <= i < j ensures Both(t[i], t[i - k], cs) {
          assert text[k..][i - k] == u[i] && u[i] in text;
          assert Admits(t[i - k], u[i], cs) && Admits(t[i], u[i], cs);
        }
        assert Overlap(t, k, j, cs);
      }
    }
  }

  lemma RestartLosesNothing(u: string, s: string, q: seq<Token>, cs: bool)
    requires Reading(u, q, cs) && |u| < SegmentLength(q) && s != [] && CString(u) && CString(s)
    requires !Admits(q[|u|], s[0], cs)
    requires !Overlaps(q[..SegmentLength(q)], cs)
    requires Matches(u + s, [Star] + q, cs)
    ensures Matches(s[1..], [Star] + q, cs)
  {
    hide *;
    var n, text := SegmentLength(q), u + s;
    var k := SegmentBehindStar(text, q, cs);
    FitsBeyondMismatch(u, s, q, k, cs);
    var k' := k - |u| - 1;
    assert text[k..] == s[1..][k'..];
    assert text[k + n..] == s[1..][k' + n..];
    FitsBehindStar(s[1..], k', q, cs);
  }

  /** The leftmost place where a segment fits is as good as any when a star follows. */
  lemma SegmentRead(u: string, s: string, q: seq<Token>, cs: bool)
    requires Reading(u, q, cs) && |u| == SegmentLength(q) < |q|
    requires Matches(u + s, [Star] + q, cs)
    ensures Matches(s, [Star] + DropStars(q[|u|..]), cs)
  {
    hide Matches, Fits, Admits;
    var n := |u|;
    var k := SegmentBehindStar(u + s, q, cs);
    assert (u + s)[k + n..] == s[k..];
    DropStarsMatches(s[k..], q[n..], cs);
    StarTakes(s, k, DropStars(q[n..]), cs);
  }

  /** After the last star of a safe pattern nothing is missed: u are the characters read since the
      restart and s is the text still to read. */
  lemma {:induction false} CompleteAfterStar(u: string, s: string, q: seq<Token>, cs: bool)
    requires q != [] && SafeAfterStar(q, cs) && CString(u) && CString(s)
    requires Reading(u, q, cs) && Matches(u + s, [Star] + q, cs)
    ensures Run(s, q[|u|..], After(q), cs)
    decreases |q|, |s|
  {
    hide Matches, Fits, Overlaps, EqualChar, InItems, Has, NonStars, SegmentLength;
    var n, j := SegmentLength(q), |u|;
    if j == n {
      var rest := DropStars(q[n..]);
      SegmentRead(u, s, q, cs);
      if rest != [] {
        MinLengthStar(s, rest, cs);
        assert [] + s == s && rest[0..] == rest;
        CompleteAfterStar([], s, rest, cs);
      }
    } else {
      SegmentTooLong(u + s, q, cs);
      var c := s[0];
      assert q[j..][1..] == q[j + 1..];
      if Admits(q[j], c, cs) {
        assert (u + [c]) + s[1..] == u + s;
        CompleteAfterStar(u + [c], s[1..], q, cs);
      } else {
        RestartLosesNothing(u, s, q, cs);
        assert [] + s[1..] == s[1..] && q[0..] == q;
        CompleteAfterStar([], s[1..], q, cs);
      }
    }
  }

  lemma SegmentTooLong(text: string, q: seq<Token>, cs: bool)
    requires Matches(text, [Star] + q, cs)
    ensures SegmentLength(q) <= |text|
  {
    var k := SegmentBehindStar(text, q, cs);
  }

  lemma {:induction false} SafeIsComplete(s: string, p: seq<Token>, cs: bool)
    requires CString(s) && Matches(s, p, cs)
    requires var rest := DropStars(p[SegmentLength(p)..]); rest == [] || SafeAfterStar(rest, cs)
    ensures Run(s, p, Fail, cs)
    decreases |p|
  {
    if p != [] {
      if p[0].Star? {
        var rest := DropStars(p);
        assert p[0..] == p;
        DropStarsMatches(s, p, cs);
        if rest != [] {
          MinLengthStar(s, rest, cs);
          assert [] + s == s && rest[0..] == rest;
          CompleteAfterStar([], s, rest, cs);
        }
      } else {
        assert p[1..][SegmentLength(p[1..])..] == p[SegmentLength(p)..];
        SafeIsComplete(s[1..], p[1..], cs);
      }
    }
  }

  // ----- Necessity

  /** A text that a star-free sequence of satisfiable tokens fits, one character a token. */
  lemma {:induction false} Witness(t: seq<Token>, cs: bool) returns (w: string)
    requires Satisfiable(t, cs)
    ensures |w| == NonStars(t) && CString(w) && Matches(w, t, cs)
    decreases |t|
  {
    if t == [] {
      w := [];
    } else {
      var v := Witness(t[1..], cs) by {
        assert forall i | 0 <= i < |t| - 1 :: t[1..][i] == t[i + 1];
      }
      if t[0].Star? {
        w := v;
        assert w[0..] == w;
      } else {
        assert Both(t[0], t[0], cs);
        var c :| IsChar(c) && Admits(t[0], c, cs);
        w := [c] + v;
        assert w[1..] == v;
      }
    }
  }

  lemma {:induction false} NonStarsConcat(a: seq<Token>, b: seq<Token>)
    ensures NonStars(a + b) == NonStars(a) + NonStars(b)
    decreases |a|
  {
    if a == [] {
      assert a + b == b;
    } else {
      assert (a + b)[1..] == a[1..] + b;
      NonStarsConcat(a[1..], b);
    }
  }

  lemma {:induction false} NonStarsSegment(t: seq<Token>)
    requires forall i | 0 <= i < |t| :: !t[i].Star?
    ensures NonStars(t) == |t|
    decreases |t|
  {
    if t != [] {
      NonStarsSegment(t[1..]);
    }
  }

  /** Reading a text that fits the beginning of the pattern just consumes both. */
  lemma {:induction false} RunFits(u: string, s: string, p: seq<Token>, restart: Restart, cs: bool)
    requires |u| <= |p| && forall i | 0 <= i < |u| :: !p[i].Star? && Admits(p[i], u[i], cs)
    ensures Run(u + s, p, restart, cs) == Run(s, p[|u|..], restart, cs)
    decreases |u|
  {
    if u == [] {
      assert u + s == s && p[0..] == p;
    } else {
      assert (u + s)[1..] == u[1..] + s && p[1..][|u| - 1..] == p[|u|..];
      RunFits(u[1..], s, p[1..], restart, cs);
    }
  }

  /** A pattern that is not safe behind its last star: either its last segment is not closed off, or
      some segment overlaps itself. */
  lemma {:induction false} UnsafeAfterStar(q: seq<Token>, cs: bool) returns (s: string)
    requires q != [] && !q[0].Star? && Satisfiable(q, cs) && !SafeAfterStar(q, cs)
    ensures s != [] && CString(s) && Matches(s, [Star] + q, cs) && !Run(s, q, After(q), cs)
    decreases |q|
  {
    hide Matches, Fits, Overlaps, Satisfiable, Admits;
    var n := SegmentLength(q);
    var t, tail := q[..n], q[n..];
    assert q == t + tail;
    SatisfiableParts(t, tail, cs);
    var w := SegmentWitness(t, cs);
    if n == |q| {
      s := UnclosedSegment(q, w, cs);
    } else if Overlaps(t, cs) {
      s := OverlappingSegment(q, w, cs);
    } else {
      var rest := DropStars(tail);
      DropStarsSuffix(tail);
      SatisfiableSuffix(tail, |tail| - |rest|, cs);
      var v := UnsafeAfterStar(rest, cs);
      s := w + v;
      RunFits(w, v, q, After(q), cs);
      DropStarsMatches(v, tail, cs);
      assert s[0..] == s && s[n..] == v;
      FitsExtended(w, v, t, cs);
      FitsBehindStar(s, 0, q, cs);
    }
  }

  lemma SatisfiableParts(a: seq<Token>, b: seq<Token>, cs: bool)
    requires Satisfiable(a + b, cs)
    ensures Satisfiable(a, cs) && Satisfiable(b, cs)
  {
    assert forall i | 0 <= i < |a| :: a[i] == (a + b)[i];
    assert forall i | 0 <= i < |b| :: b[i] == (a + b)[|a| + i];
  }

  lemma SatisfiableSuffix(p: seq<Token>, k: nat, cs: bool)
    requires k <= |p| && Satisfiable(p, cs)
    ensures Satisfiable(p[k..], cs)
  {
    assert p == p[..k] + p[k..];
    SatisfiableParts(p[..k], p[k..], cs);
  }

  lemma {:induction false} DropStarsSuffix(p: seq<Token>)
    ensures DropStars(p) == p[|p| - |DropStars(p)|..]
    decreases |p|
  {
    if p != [] && p[0].Star? {
      DropStarsSuffix(p[1..]);
    }
  }

  lemma SegmentWitness(t: seq<Token>, cs: bool) returns (w: string)
    requires Satisfiable(t, cs) && forall i | 0 <= i < |t| :: !t[i].Star?
    ensures |w| == |t| && CString(w) && Fits(w, t, cs)
  {
    w := Witness(t, cs);
    NonStarsSegment(t);
    MatchesSegment(w, |t|, t, cs);
    assert t[..|t|] == t;
  }

  /** A last segment not followed by a star: on two copies of a text that fits it, the matcher reads
      the first copy, drops the first character of the second, and is too short of text after that. */
  lemma UnclosedSegment(q: seq<Token>, w: string, cs: bool) returns (s: string)
    requires q != [] && SegmentLength(q) == |q| == |w| && CString(w) && Fits(w, q, cs)
    ensures s != [] && CString(s) && Matches(s, [Star] + q, cs) && !Run(s, q, After(q), cs)
  {
    var n := |q|;
    s := w + w;
    RunFits(w, w, q, After(q), cs);
    NonStarsSegment(q);
    ShortFails(w[1..], q, cs);
    assert q[n..] == [] && q[..n] == q && s[n..] == w && s[2 * n..] == [];
    assert Fits(s[n..], q[..n], cs);
    assert Matches(s[n + n..], q[n..], cs);
    FitsBehindStar(s, n, q, cs);
  }

  /** A text for an overlap: it fits the first m tokens and, from d on, the beginning of the segment. */
  lemma {:induction false} OverlapText(t: seq<Token>, w: string, d: nat, j: nat, m: nat, cs: bool) returns (u: string)
    requires Overlap(t, d, j, cs) && m <= j && |w| == |t| && Fits(w, t, cs) && CString(w)
    ensures |u| == m && CString(u) && forall i | 0 <= i < m :: Admits(t[i], u[i], cs)
    ensures forall i | d <= i < m :: Admits(t[i - d], u[i], cs)
    decreases m
  {
    hide Has, InItems, EqualChar, IsChar;
    if m == 0 {
      u := [];
    } else {
      var v := OverlapText(t, w, d, j, m - 1, cs);
      var i := m - 1;
      var c := w[i];
      assert c in w;
      if d <= i {
        assert Both(t[i], t[i - d], cs);
        c :| IsChar(c) && Admits(t[i], c, cs) && Admits(t[i - d], c, cs);
      }
      u := v + [c];
    }
  }

  /** The characters of such a text up to and including the mismatch. */
  lemma OverlapBeginning(t: seq<Token>, w: string, cs: bool) returns (d: nat, u: string, x: char)
    requires Overlaps(t, cs) && |w| == |t| && CString(w) && Fits(w, t, cs)
    ensures 1 <= d <= |u| < |t| && CString(u) && IsChar(x)
    ensures forall i | 0 <= i < |u| :: Admits(t[i], u[i], cs)
    ensures forall i | d <= i < |u| :: Admits(t[i - d], u[i], cs)
    ensures Admits(t[|u| - d], x, cs) && !Admits(t[|u|], x, cs)
  {
    var j: nat;
    d, j :| Overlap(t, d, j, cs);
    u := OverlapText(t, w, d, j, j, cs);
    x :| IsChar(x) && Admits(t[j - d], x, cs) && !Admits(t[j], x, cs);
  }

  /** A segment that overlaps itself: the text reaches the mismatch, yet a fit began before it, and
      what is left after the mismatch is too short. */
  lemma OverlappingSegment(q: seq<Token>, w: string, cs: bool) returns (s: string)
    requires var n := SegmentLength(q); |w| == n && CString(w) && Fits(w, q[..n], cs) && Overlaps(q[..n], cs)
    requires Satisfiable(q, cs)
    ensures s != [] && CString(s) && Matches(s, [Star] + q, cs) && !Run(s, q, After(q), cs)
  {
    hide *;
    var d, u, x := OverlapBeginning(q[..SegmentLength(q)], w, cs);
    var m := |u| - d + 1;
    SatisfiableSuffix(q, m, cs);
    var r := Witness(q[m..], cs);
    s := u + ([x] + r);
    CStringAround(u, x, r);
    OverlapRejected(u, x, r, q, m, cs);
    OverlapMatches(u, x, r, q, d, cs);
  }

  lemma CStringAround(u: string, x: char, r: string)
    requires CString(u) && IsChar(x) && CString(r)
    ensures CString(u + ([x] + r))
  {}

  lemma OverlapRejected(u: string, x: char, r: string, q: seq<Token>, m: nat, cs: bool)
    requires |u| < SegmentLength(q) && !Admits(q[|u|], x, cs)
    requires forall i | 0 <= i < |u| :: Admits(q[i], u[i], cs)
    requires 0 < m <= SegmentLength(q) && |r| == NonStars(q[m..])
    ensures !Run(u + ([x] + r), q, After(q), cs)
  {
    RunFits(u, [x] + r, q, After(q), cs);
    assert ([x] + r)[1..] == r;
    assert q == q[..m] + q[m..];
    NonStarsConcat(q[..m], q[m..]);
    NonStarsSegment(q[..m]);
    ShortFails(r, q, cs);
  }

  lemma OverlapMatches(u: string, x: char, r: string, q: seq<Token>, d: nat, cs: bool)
    requires 1 <= d <= |u| < SegmentLength(q)
    requires forall i | d <= i < |u| :: Admits(q[i - d], u[i], cs)
    requires Admits(q[|u| - d], x, cs) && Matches(r, q[|u| - d + 1..], cs)
    ensures Matches(u + ([x] + r), [Star] + q, cs)
  {
    var s, m := u + ([x] + r), |u| - d + 1;
    hide Matches, Fits, Admits;
    OverlapFits(u, x, r, q, d, cs);
    assert s[d..][m..] == s[|u| + 1..] == r;
    MatchesSegment(s[d..], m, q, cs);
    StarTakes(s, d, q, cs);
  }

  lemma OverlapFits(u: string, x: char, r: string, q: seq<Token>, d: nat, cs: bool)
    requires 1 <= d <= |u| < |q|
    requires forall i | d <= i < |u| :: Admits(q[i - d], u[i], cs)
    requires Admits(q[|u| - d], x, cs)
    ensures Fits((u + ([x] + r))[d..], q[..|u| - d + 1], cs)
  {
    hide Admits;
    var s, m := u + ([x] + r), |u| - d + 1;
    forall i | 0 <= i < m ensures Admits(q[..m][i], s[d..][i], cs) {
      assert s[d..][i] == if i < m - 1 then u[i + d] else x;
    }
  }

  lemma {:induction false} UnsafeIsMissed(p: seq<Token>, cs: bool) returns (s: string)
    requires !Safe(p, cs)
    ensures CString(s) && Matches(s, p, cs) && !Run(s, p, Fail, cs)
    decreases |p|
  {
    hide Matches, Fits, Admits, Satisfiable, SafeAfterStar;
    var n := SegmentLength(p);
    var t, tail := p[..n], p[n..];
    var rest := DropStars(tail);
    assert p == t + tail;
    SatisfiableParts(t, tail, cs);
    var w := SegmentWitness(t, cs);
    DropStarsSuffix(tail);
    SatisfiableSuffix(tail, |tail| - |rest|, cs);
    var v := UnsafeAfterStar(rest, cs);
    s := w + v;
    RunFits(w, v, p, Fail, cs);
    DropStarsMatches(v, tail, cs);
    assert s[n..] == v;
    FitsExtended(w, v, t, cs);
    MatchesSegment(s, n, p, cs);
  }

  lemma {:induction false} UnsatisfiableNeverMatches(s: string, p: seq<Token>, cs: bool)
    requires CString(s) && Matches(s, p, cs)
    ensures Satisfiable(p, cs)
    decreases |p|
  {
    if p != [] {
      if p[0].Star? {
        var k :| 0 <= k <= |s| && Matches(s[k..], p[1..], cs);
        UnsatisfiableNeverMatches(s[k..], p[1..], cs);
      } else {
        UnsatisfiableNeverMatches(s[1..], p[1..], cs);
        assert s[0] in s && Both(p[0], p[0], cs);
      }
      assert forall i | 1 <= i < |p| :: p[i] == p[1..][i - 1];
    }
  }

  ghost predicate Exact(p: seq<Token>, cs: bool) {
    forall s: string :: CString(s) ==> (Run(s, p, Fail, cs) <==> Matches(s, p, cs))
  }

  /** The matcher agrees with the declarative meaning on every text exactly when the pattern is safe. */
  lemma ExactIffSafe(p: seq<Token>, cs: bool)
    ensures Exact(p, cs) <==> Safe(p, cs)
  {
    if Safe(p, cs) {
      forall s: string | CString(s) ensures Run(s, p, Fail, cs) <==> Matches(s, p, cs) {
        if Run(s, p, Fail, cs) {
          RunSound(s, p, Fail, cs);
        }
        if Matches(s, p, cs) {
          UnsatisfiableNeverMatches(s, p, cs);
          SafeIsComplete(s, p, cs);
        }
      }
    } else {
      var s := UnsafeIsMissed(p, cs);
    }
  }

  /** Patterns whose only stars are trailing are safe. */
  lemma TrailingStarsSafe(p: seq<Token>, cs: bool)
    requires DropStars(p[SegmentLength(p)..]) == []
    ensures Safe(p, cs) && Exact(p, cs)
  {
    ExactIffSafe(p, cs);
  }

  /** The smallest miss: "aa" matches the pattern *a, and the matcher, back after the star with the
      second character dropped, has run out of text. */
  lemma InteriorStarMissed(cs: bool)
    ensures Matches("aa", [Star, Literal('a')], cs) && !Run("aa", [Star, Literal('a')], Fail, cs)
  {
    var s, p, q := "aa", [Star, Literal('a')], [Literal('a')];
    assert p[1..] == q && q[1..] == [] && s[1..] == "a" && s[1..][1..] == "";
    assert DropStars(p) == q;
    assert Matches(s[1..], q, cs);
    assert Run(s[1..], [], After(q), cs) == Run("", q, After(q), cs);
  }
}
