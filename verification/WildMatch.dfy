/** The wildcard matcher of core/additions/str.c.

    `WildCmp` is the linear-space matcher: it keeps two restart marks, taken at
    the last star it passed, and forgets every earlier star.  `Matches` is what
    a pattern means.  The theorem is that the two agree on every text and
    every pattern. */
module WildMatch {

  /** Texts are C strings: NUL ends them, so they contain none. */
  predicate NulFree(s: string) {
    '\0' !in s
  }

  /** The character a C pointer sees at offset `i`; the terminator sits at the end. */
  function CharAt(s: string, i: nat): char
    requires i <= |s|
  {
    if i < |s| then s[i] else '\0'
  }

  /** A star stands for any string, a question mark for any one character. */
  ghost predicate Matches(s: string, w: string)
    decreases |w|, 0
  {
    if w == "" then s == ""
    else if w[0] == '*' then SomeSuffixMatches(s, 0, w[1..])
    else s != "" && Fits(s[0], w[0]) && Matches(s[1..], w[1..])
  }

  /** Some suffix of `s` that starts at `lo` or later matches `w`. */
  ghost predicate SomeSuffixMatches(s: string, lo: nat, w: string)
    decreases |w|, 1
  {
    exists k :: lo <= k <= |s| && Matches(s[k..], w)
  }

  predicate Fits(c: char, p: char) {
    p == '?' || p == c
  }

  /** `w` has no star in [lo, hi) and those characters fit the text from `at`. */
  ghost predicate LiteralRun(s: string, at: nat, w: string, lo: nat, hi: nat) {
    lo <= hi <= |w| && at + (hi - lo) <= |s| &&
    forall k :: lo <= k < hi ==> w[k] != '*' && Fits(s[at + (k - lo)], w[k])
  }

  /** One character of text and pattern consumed together changes nothing. */
  lemma MatchesStep(s: string, i: nat, w: string, j: nat)
    requires i < |s| && j < |w| && w[j] != '*' && Fits(s[i], w[j])
    ensures Matches(s[i..], w[j..]) <==> Matches(s[i + 1..], w[j + 1..])
  {
    assert s[i..][1..] == s[i + 1..] && w[j..][1..] == w[j + 1..];
  }

  /** At a star the matcher may start the rest of the pattern anywhere further on. */
  lemma MatchesAtStar(s: string, i: nat, w: string, j: nat)
    requires i <= |s| && j < |w| && w[j] == '*'
    ensures Matches(s[i..], w[j..]) <==> SomeSuffixMatches(s, i, w[j + 1..])
  {
    assert w[j..][1..] == w[j + 1..];
    forall k | 0 <= k <= |s| - i ensures s[i..][k..] == s[i + k..] { }
    if SomeSuffixMatches(s, i, w[j + 1..]) {
      var k :| i <= k <= |s| && Matches(s[k..], w[j + 1..]);
      assert s[i..][k - i..] == s[k..];
    }
  }

  /** A character that does not fit, or a pattern used up before the text. */
  lemma MatchesMisfit(s: string, i: nat, w: string, j: nat)
    requires i < |s| && j <= |w| && (j < |w| ==> w[j] != '*' && !Fits(s[i], w[j]))
    ensures !Matches(s[i..], w[j..])
  {
  }

  /** Starting afresh at `i`: one attempt here, the others one further on. */
  lemma RestartRun(s: string, i: nat, w: string, j: nat)
    requires i <= |s| && j <= |w|
    ensures LiteralRun(s, i, w, j, j)
    ensures SomeSuffixMatches(s, i, w[j..]) <==> Matches(s[i..], w[j..]) || SomeSuffixMatches(s, i + 1, w[j..])
  {
  }

  lemma ExtendRun(s: string, at: nat, w: string, lo: nat, hi: nat)
    requires LiteralRun(s, at, w, lo, hi) && hi < |w| && at + (hi - lo) < |s|
    requires w[hi] != '*' && Fits(s[at + (hi - lo)], w[hi])
    ensures LiteralRun(s, at, w, lo, hi + 1)
  {
  }

  lemma LiteralRunBounds(s: string, at: nat, w: string, lo: nat, hi: nat)
    requires LiteralRun(s, at, w, lo, hi)
    ensures lo <= hi <= |w| && at + (hi - lo) <= |s|
  {
  }

  lemma EmptyPatternTakesAll(s: string, i: nat, w: string)
    requires i <= |s| && w == ""
    ensures SomeSuffixMatches(s, i, w)
  {
    assert Matches(s[|s|..], w);
  }

  /** A pattern whose characters lo..hi are not stars, followed by a star at `hi`,
      that matches from `k` matches its part behind that star from at least
      `k + (hi - lo)` on. */
  lemma {:induction false} LiteralsConsume(s: string, k: nat, w: string, lo: nat, hi: nat)
    requires k <= |s| && lo <= hi < |w| && w[hi] == '*'
    requires forall m :: lo <= m < hi ==> w[m] != '*'
    requires Matches(s[k..], w[lo..])
    ensures SomeSuffixMatches(s, k + (hi - lo), w[hi + 1..])
    decreases hi - lo
  {
    if lo == hi {
      MatchesAtStar(s, k, w, lo);
    } else {
      assert s[k..] != "";
      assert s[k..][1..] == s[k + 1..] && w[lo..][1..] == w[lo + 1..];
      LiteralsConsume(s, k + 1, w, lo + 1, hi);
    }
  }

  /** Earlier stars never need revisiting.  The attempt that started at `cp - 1`
      right behind the star `mp - 1` has fitted w[mp..j] and now stands at the next
      star.  Whatever a later start for w[mp..] could still reach, a start behind the
      new star reaches too. */
  lemma EarlierStarIsRedundant(s: string, w: string, mp: nat, cp: nat, i: nat, j: nat)
    requires 1 <= cp && j < |w| && w[j] == '*' && LiteralRun(s, cp - 1, w, mp, j)
    requires i == cp - 1 + (j - mp)
    requires SomeSuffixMatches(s, cp, w[mp..])
    ensures SomeSuffixMatches(s, i, w[j + 1..])
  {
    var k :| cp <= k <= |s| && Matches(s[k..], w[mp..]);
    LiteralsConsume(s, k, w, mp, j);
  }

  lemma StarsMatchEmpty(w: string, j: nat)
    requires j <= |w|
    ensures j < |w| && w[j] == '*' ==> (Matches("", w[j..]) <==> Matches("", w[j + 1..]))
    ensures j < |w| && w[j] != '*' ==> !Matches("", w[j..])
    ensures j == |w| ==> Matches("", w[j..])
  {
    if j < |w| && w[j] == '*' {
      assert ""[0..] == "";
      MatchesAtStar("", 0, w, j);
      if Matches("", w[j + 1..]) {
        assert Matches(""[0..], w[j + 1..]);
      }
    }
  }

  /** Returns true exactly when the whole text matches the whole pattern.
      `mp` and `cp` are the restart marks; -1 stands for the null pointers. */
  method WildCmp(s: string, w: string) returns (r: bool)
    requires NulFree(s) && NulFree(w)
    ensures r <==> Matches(s, w)
    ensures r <==> exists at :: Aligned(s, 0, w, at)
  {
    MatchesMeans(s, w);
    hide Matches;
    hide Aligned;
    hide SomeSuffixMatches;
    hide LiteralRun;
    var i: nat, j: nat := 0, 0;
    assert s[0..] == s && w[0..] == w;
    while CharAt(s, i) != '\0' && CharAt(w, j) != '*'
      invariant i <= |s| && j <= |w|
      invariant Matches(s, w) <==> Matches(s[i..], w[j..])
      decreases |s| - i
    {
      if CharAt(w, j) != CharAt(s, i) && CharAt(w, j) != '?' {
        MatchesMisfit(s, i, w, j);
        return false;
      }
      MatchesStep(s, i, w, j);
      j := j + 1;
      i := i + 1;
    }

    var mp: int, cp: int := -1, -1;
    while CharAt(s, i) != '\0'
      invariant i <= |s| && j <= |w| && -1 <= mp <= |w|
      invariant mp < 0 ==> i == |s| || (j < |w| && w[j] == '*')
      invariant mp < 0 ==> (Matches(s, w) <==> Matches(s[i..], w[j..]))
      invariant mp >= 0 ==> 1 <= cp <= |s| + 1
      invariant mp >= 0 ==> LiteralRun(s, cp - 1, w, mp, j) && i == cp - 1 + (j - mp)
      invariant mp >= 0 ==> (Matches(s, w) <==> Matches(s[i..], w[j..]) || SomeSuffixMatches(s, cp, w[mp..]))
      decreases |w| - mp, |s| + 1 - cp, |s| - i
    {
      if mp >= 0 {
        LiteralRunBounds(s, cp - 1, w, mp, j);
      }
      if CharAt(w, j) == '*' {
        MatchesAtStar(s, i, w, j);
        if mp >= 0 && SomeSuffixMatches(s, cp, w[mp..]) {
          EarlierStarIsRedundant(s, w, mp, cp, i, j);
        }
        j := j + 1;
        if CharAt(w, j) == '\0' {
          EmptyPatternTakesAll(s, i, w[j..]);
          return true;
        }
        mp := j;
        cp := i + 1;
        RestartRun(s, i, w, j);
      } else if CharAt(w, j) == CharAt(s, i) || CharAt(w, j) == '?' {
        MatchesStep(s, i, w, j);
        if mp >= 0 {
          ExtendRun(s, cp - 1, w, mp, j);
        }
        j := j + 1;
        i := i + 1;
      } else {
        MatchesMisfit(s, i, w, j);
        j := mp;
        i := cp;
        cp := cp + 1;
        RestartRun(s, i, w, j);
      }
    }

    assert s[i..] == "";
    if mp >= 0 {
      LaterStartsFail(s, cp, w, mp, j);
    }
    ghost var before := j;
    while CharAt(w, j) == '*'
      invariant before <= j <= |w|
      invariant Matches(s, w) <==> Matches("", w[j..])
      decreases |w| - j
    {
      StarsMatchEmpty(w, j);
      j := j + 1;
    }
    StarsMatchEmpty(w, j);
    r := CharAt(w, j) == '\0';
  }

  /** The text is used up behind a star: no later start can succeed either, so
      only the pattern left over counts. */
  lemma LaterStartsFail(s: string, cp: nat, w: string, mp: nat, j: nat)
    requires 1 <= cp && LiteralRun(s, cp - 1, w, mp, j) && |s| == cp - 1 + (j - mp)
    ensures !SomeSuffixMatches(s, cp, w[mp..])
  {
    forall k | cp <= k <= |s| ensures !Matches(s[k..], w[mp..]) {
      TooShort(s, k, w, mp, j);
    }
  }

  /** A text shorter than the non-star characters in front of it never matches. */
  lemma {:induction false} TooShort(s: string, k: nat, w: string, lo: nat, hi: nat)
    requires k <= |s| && lo <= hi <= |w|
    requires forall m :: lo <= m < hi ==> w[m] != '*'
    requires |s| - k < hi - lo
    ensures !Matches(s[k..], w[lo..])
    decreases hi - lo
  {
    if k < |s| {
      assert s[k..][1..] == s[k + 1..] && w[lo..][1..] == w[lo + 1..];
      TooShort(s, k + 1, w, lo + 1, hi);
    }
  }

  /** Some cut of `s` gives a front that matches `w1` and a rest that matches `w2`. */
  ghost predicate Splits(s: string, w1: string, w2: string) {
    exists k :: 0 <= k <= |s| && Matches(s[..k], w1) && Matches(s[k..], w2)
  }

  /** A pattern in two parts matches exactly the texts that fall into two parts. */
  lemma {:induction false} MatchesSplits(s: string, w1: string, w2: string)
    ensures Matches(s, w1 + w2) <==> Splits(s, w1, w2)
    decreases |w1|
  {
    if w1 == "" {
      assert w1 + w2 == w2 && s[0..] == s && s[..0] == "";
    } else {
      assert (w1 + w2)[1..] == w1[1..] + w2;
      if w1[0] == '*' {
        forall k | 0 <= k <= |s| ensures Matches(s[k..], w1[1..] + w2) <==> Splits(s[k..], w1[1..], w2) {
          MatchesSplits(s[k..], w1[1..], w2);
        }
        StarSplits(s, w1, w2);
      } else if s != "" {
        MatchesSplits(s[1..], w1[1..], w2);
        CharSplits(s, w1, w2);
      }
    }
  }

  lemma StarSplits(s: string, w1: string, w2: string)
    requires w1 != "" && w1[0] == '*'
    ensures (exists k :: 0 <= k <= |s| && Splits(s[k..], w1[1..], w2)) <==> Splits(s, w1, w2)
  {
    if k :| 0 <= k <= |s| && Splits(s[k..], w1[1..], w2) {
      var m :| 0 <= m <= |s[k..]| && Matches(s[k..][..m], w1[1..]) && Matches(s[k..][m..], w2);
      assert s[..k + m][k..] == s[k..][..m] && s[k..][m..] == s[k + m..];
      assert SomeSuffixMatches(s[..k + m], 0, w1[1..]);
    }
    if m :| 0 <= m <= |s| && Matches(s[..m], w1) && Matches(s[m..], w2) {
      assert SomeSuffixMatches(s[..m], 0, w1[1..]);
      var k :| 0 <= k <= m && Matches(s[..m][k..], w1[1..]);
      assert s[..m][k..] == s[k..][..m - k] && s[k..][m - k..] == s[m..];
      assert Splits(s[k..], w1[1..], w2);
    }
  }

  lemma CharFirst(s: string, w: string)
    requires w != "" && w[0] != '*'
    ensures Matches(s, w) <==> s != "" && Fits(s[0], w[0]) && Matches(s[1..], w[1..])
  {
    hide Fits;
  }

  lemma CharSplits(s: string, w1: string, w2: string)
    requires s != "" && w1 != "" && w1[0] != '*'
    ensures Fits(s[0], w1[0]) && Splits(s[1..], w1[1..], w2) <==> Splits(s, w1, w2)
  {
    hide Matches;
    hide Fits;
    if Fits(s[0], w1[0]) && Splits(s[1..], w1[1..], w2) {
      var k :| 0 <= k <= |s[1..]| && Matches(s[1..][..k], w1[1..]) && Matches(s[1..][k..], w2);
      assert s[..k + 1][1..] == s[1..][..k] && s[1..][k..] == s[k + 1..];
      CharFirst(s[..k + 1], w1);
    }
    if k :| 0 <= k <= |s| && Matches(s[..k], w1) && Matches(s[k..], w2) {
      CharFirst(s[..k], w1);
      assert s[..k][1..] == s[1..][..k - 1] && s[k..] == s[1..][k - 1..];
    }
  }

  // ----- What a pattern means, without the relation -----

  /** One character of a pattern and the piece of the text from `a` to `b`: a star takes any
      piece, a question mark any one character, and every other character itself. */
  ghost predicate Takes(s: string, p: char, a: nat, b: nat) {
    if p == '*' then a <= b else a < |s| && b == a + 1 && (p == '?' || p == s[a])
  }

  /** The text from `lo` on is laid along the pattern; `at` says where each character of the
      pattern begins, and ends behind the last. */
  ghost predicate Aligned(s: string, lo: nat, w: string, at: seq<nat>) {
    && |at| == |w| + 1 && at[0] == lo && at[|w|] == |s|
    && forall k :: 0 <= k < |w| ==> Takes(s, w[k], at[k], at[k + 1])
  }

  lemma {:induction false} NeverBefore(s: string, lo: nat, w: string, at: seq<nat>, k: nat)
    requires Aligned(s, lo, w, at) && k <= |w|
    ensures lo <= at[k]
  {
    if k > 0 {
      NeverBefore(s, lo, w, at, k - 1);
      assert Takes(s, w[k - 1], at[k - 1], at[k]);
    }
  }

  lemma AlignedRest(s: string, lo: nat, w: string, at: seq<nat>)
    requires Aligned(s, lo, w, at) && w != ""
    ensures lo <= at[1] <= |s| && Takes(s, w[0], lo, at[1]) && Aligned(s, at[1], w[1..], at[1..])
  {
    var v, rest := w[1..], at[1..];
    assert Takes(s, w[0], at[0], at[1]);
    forall k | 0 <= k < |v| ensures Takes(s, v[k], rest[k], rest[k + 1]) {
      assert Takes(s, w[k + 1], at[k + 1], at[k + 2]);
    }
    NeverBefore(s, at[1], v, rest, |v|);
  }

  lemma AlignedMore(s: string, lo: nat, w: string, rest: seq<nat>)
    requires w != "" && |rest| == |w| && Takes(s, w[0], lo, rest[0]) && Aligned(s, rest[0], w[1..], rest)
    ensures Aligned(s, lo, w, [lo] + rest)
  {
    var at := [lo] + rest;
    forall k | 0 <= k < |w| ensures Takes(s, w[k], at[k], at[k + 1]) {
      if k > 0 {
        assert Takes(s, w[1..][k - 1], rest[k - 1], rest[k]);
      }
    }
  }

  lemma {:induction false} AlignmentMatches(s: string, lo: nat, w: string, at: seq<nat>)
    requires lo <= |s| && Aligned(s, lo, w, at)
    ensures Matches(s[lo..], w)
    decreases |w|
  {
    if w != "" {
      AlignedRest(s, lo, w, at);
      AlignmentMatches(s, at[1], w[1..], at[1..]);
      hide Aligned;
      if w[0] == '*' {
        assert s[lo..][at[1] - lo..] == s[at[1]..];
      } else {
        assert s[lo..][1..] == s[at[1]..];
      }
    }
  }

  /** The first step of a match: where the rest of the pattern begins. */
  lemma MatchBegins(s: string, lo: nat, w: string) returns (next: nat)
    requires lo <= |s| && w != "" && Matches(s[lo..], w)
    ensures lo <= next <= |s| && Takes(s, w[0], lo, next) && Matches(s[next..], w[1..])
  {
    if w[0] == '*' {
      var k :| 0 <= k <= |s[lo..]| && Matches(s[lo..][k..], w[1..]);
      next := lo + k;
      assert s[lo..][k..] == s[next..];
    } else {
      next := lo + 1;
      assert s[lo..][1..] == s[next..];
    }
  }

  lemma {:induction false} MatchAligns(s: string, lo: nat, w: string) returns (at: seq<nat>)
    requires lo <= |s| && Matches(s[lo..], w)
    ensures Aligned(s, lo, w, at)
    decreases |w|
  {
    if w == "" {
      at := [lo];
    } else {
      hide *;
      var next := MatchBegins(s, lo, w);
      var rest := MatchAligns(s, next, w[1..]);
      AlignedStarts(s, next, w[1..], rest);
      AlignedMore(s, lo, w, rest);
      at := [lo] + rest;
    }
  }

  lemma AlignedStarts(s: string, lo: nat, w: string, at: seq<nat>)
    requires Aligned(s, lo, w, at)
    ensures |at| == |w| + 1 && at[0] == lo
  {
  }

  /** A text matches a pattern exactly when it can be laid along it. */
  lemma MatchesMeans(s: string, w: string)
    ensures Matches(s, w) <==> exists at :: Aligned(s, 0, w, at)
  {
    hide Matches;
    hide Aligned;
    assert s[0..] == s;
    if Matches(s, w) {
      var at := MatchAligns(s, 0, w);
    }
    if at :| Aligned(s, 0, w, at) {
      AlignmentMatches(s, 0, w, at);
    }
  }

  /** Without a star, text and pattern have the same length and agree but for question marks. */
  lemma {:induction false} PlainPattern(s: string, w: string)
    requires '*' !in w
    ensures Matches(s, w) <==> |s| == |w| && forall k :: 0 <= k < |w| ==> w[k] == '?' || w[k] == s[k]
    decreases |w|
  {
    if w != "" {
      assert w[0] in w;
      if s != "" {
        PlainPattern(s[1..], w[1..]);
        if |s| == |w| && forall k :: 0 <= k < |w[1..]| ==> w[1..][k] == '?' || w[1..][k] == s[1..][k] {
          forall k | 1 <= k < |w| ensures w[k] == '?' || w[k] == s[k] {
            assert w[1..][k - 1] == w[k] && s[1..][k - 1] == s[k];
          }
        }
      }
    }
  }

  lemma StarTakesAll(s: string)
    ensures Matches(s, "*")
  {
    EmptyPatternTakesAll(s, 0, "");
    assert "*"[1..] == "";
  }
}
