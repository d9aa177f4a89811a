/** The wildcard matcher of the node filter (crates/client-backend/src/filter.rs). */
module Wildcard {
  import opened Results

  const STAR: char := '*'

  // ---------------------------------------------------------------------------------------------
  // The reference: what a glob matches.

  /** `*` stands for any text, every other character for itself. */
  predicate Glob(p: string, t: string)
    decreases |p|, |t|
  {
    if |p| == 0 then |t| == 0
    else if p[0] == STAR then Glob(p[1..], t) || (|t| > 0 && Glob(p, t[1..]))
    else |t| > 0 && t[0] == p[0] && Glob(p[1..], t[1..])
  }

  // ---------------------------------------------------------------------------------------------
  // The matcher.

  /** `str::find`: the leftmost place where `part` stands in `text`. */
  function Find(text: string, part: string): (r: Option<nat>)
    ensures r.Some? ==> r.value + |part| <= |text|
    decreases |text|
  {
    if part <= text then Some(0)
    else if |text| == 0 then None
    else match Find(text[1..], part)
      case None => None
      case Some(k) => Some(k + 1)
  }

  /** `str::split('*')`: always at least one part. */
  function SplitStars(p: string): (parts: seq<string>)
    ensures |parts| > 0
  {
    if |p| == 0 then [[]]
    else if p[0] == STAR then [[]] + SplitStars(p[1..])
    else
      var parts := SplitStars(p[1..]);
      [[p[0]] + parts[0]] + parts[1..]
  }

  /** Each part in turn at its leftmost place in what is left of the text; how much is used up. */
  function Consume(parts: seq<string>, text: string): (r: Option<nat>)
    ensures r.Some? ==> r.value <= |text|
    decreases |parts|
  {
    if |parts| == 0 then Some(0)
    else match Find(text, parts[0])
      case None => None
      case Some(k) =>
        var used := k + |parts[0]|;
        match Consume(parts[1..], text[used..])
        case None => None
        case Some(more) => Some(used + more)
  }

  /** The text left over by the same placement. */
  function Leftover(parts: seq<string>, text: string): Option<string>
    decreases |parts|
  {
    if |parts| == 0 then Some(text)
    else match Find(text, parts[0])
      case None => None
      case Some(k) => Leftover(parts[1..], text[k + |parts[0]|..])
  }

  lemma {:induction false} LeftoverConsumes(parts: seq<string>, text: string)
    ensures Leftover(parts, text).Some? <==> Consume(parts, text).Some?
    ensures Consume(parts, text).Some? ==> Leftover(parts, text).value == text[Consume(parts, text).value..]
    decreases |parts|
  {
    if |parts| > 0 && Find(text, parts[0]).Some? {
      LeftoverConsumes(parts[1..], text[Find(text, parts[0]).value + |parts[0]|..]);
    }
  }

  predicate Contains(text: string, part: string) {
    Find(text, part).Some?
  }

  /** What the matcher answers: without a star, a substring test; otherwise the first part must
      start the text, the others follow greedily, and unless the pattern ends with a star nothing
      may be left. */
  predicate Matches(p: string, t: string) {
    if STAR !in p then Contains(t, p)
    else
      var parts := SplitStars(p);
      && parts[0] <= t
      && var left := Leftover(parts[1..], t[|parts[0]|..]);
      left.Some? && (p[|p| - 1] == STAR || |left.value| == 0)
  }

  /** The matcher's loop. */
  method WildcardMatch(p: string, t: string) returns (ok: bool)
    ensures ok == Matches(p, t)
  {
    if STAR !in p {
      return Contains(t, p);
    }
    var parts := SplitStars(p);
    SplitStarsStart(p);
    var rest := t;
    var first := true;
    for i := 0 to |parts|
      invariant first <==> i == 0
      invariant i == 0 ==> rest == t
      invariant i > 0 ==> parts[0] <= t && Leftover(parts[1..], t[|parts[0]|..]) == Leftover(parts[i..], rest)
    {
      var part := parts[i];
      assert parts[i..][0] == part && parts[i..][1..] == parts[i + 1..];
      if |part| == 0 {
        assert part <= rest && rest[0..] == rest;
      } else if first && p[0] != STAR {
        if !(part <= rest) {
          return false;
        }
        rest := rest[|part|..];
      } else {
        var pos := Find(rest, part);
        if pos.None? {
          return false;
        }
        rest := rest[pos.value + |part|..];
      }
      first := false;
    }
    assert parts[|parts|..] == [];
    return p[|p| - 1] == STAR || |rest| == 0;
  }

  /** The first part is empty exactly when the pattern is empty or starts with a star. */
  lemma SplitStarsStart(p: string)
    ensures |SplitStars(p)[0]| == 0 <==> |p| == 0 || p[0] == STAR
  {
  }

  // ---------------------------------------------------------------------------------------------
  // Globs, part by part.

  /** The pattern that puts a star before every part. */
  function Starred(parts: seq<string>): string {
    if |parts| == 0 then [] else [STAR] + parts[0] + Starred(parts[1..])
  }

  predicate NoStars(parts: seq<string>) {
    forall i :: 0 <= i < |parts| ==> STAR !in parts[i]
  }

  /** A pattern is its first part followed by the others, each after a star. */
  lemma {:induction false} SplitStarsJoins(p: string)
    ensures NoStars(SplitStars(p))
    ensures p == SplitStars(p)[0] + Starred(SplitStars(p)[1..])
    ensures |SplitStars(p)| > 1 <==> STAR in p
  {
    if |p| > 0 {
      SplitStarsJoins(p[1..]);
      var parts, tail := SplitStars(p), SplitStars(p[1..]);
      assert p == [p[0]] + p[1..];
      if p[0] == STAR {
        assert parts[0] == [] && parts[1..] == tail;
        assert Starred(tail) == [STAR] + tail[0] + Starred(tail[1..]);
      } else {
        assert parts[0] == [p[0]] + tail[0] && parts[1..] == tail[1..];
        hide Starred;
      }
    }
  }

  lemma {:induction false} GlobLiteral(lit: string, p: string, t: string)
    requires STAR !in lit
    ensures Glob(lit + p, t) <==> lit <= t && Glob(p, t[|lit|..])
    decreases |lit|
  {
    if |lit| == 0 {
      assert lit + p == p;
    } else {
      assert (lit + p)[1..] == lit[1..] + p;
      if |t| > 0 {
        GlobLiteral(lit[1..], p, t[1..]);
        assert lit <= t <==> lit[0] == t[0] && lit[1..] <= t[1..];
        if lit <= t {
          assert t[1..][|lit| - 1..] == t[|lit|..];
        }
      }
    }
  }

  lemma {:induction false} GlobStar(p: string, t: string)
    ensures Glob([STAR] + p, t) <==> exists k :: 0 <= k <= |t| && Glob(p, t[k..])
    decreases |t|
  {
    var q := [STAR] + p;
    assert q[1..] == p && t[0..] == t;
    if |t| > 0 {
      GlobStar(p, t[1..]);
      if k :| 0 <= k <= |t| && Glob(p, t[k..]) && k > 0 {
        assert t[1..][k - 1..] == t[k..];
      }
      if Glob(q, t[1..]) {
        var k :| 0 <= k <= |t| - 1 && Glob(p, t[1..][k..]);
        assert t[1..][k..] == t[k + 1..];
      }
    }
  }

  /** A pattern that starts with a star also matches any longer text with the same end. */
  lemma GlobStarAbsorbs(p: string, t: string, j: nat)
    requires j <= |t|
    requires Glob([STAR] + p, t[j..])
    ensures Glob([STAR] + p, t)
  {
    GlobStar(p, t[j..]);
    var k :| 0 <= k <= |t| - j && Glob(p, t[j..][k..]);
    assert t[j..][k..] == t[j + k..];
    GlobStar(p, t);
  }

  /** A pattern that ends with a star also matches any text that goes on. */
  lemma {:induction false} GlobEndsWithStar(p: string, t: string, k: nat)
    requires |p| > 0 && p[|p| - 1] == STAR
    requires k <= |t|
    requires Glob(p, t[..k])
    ensures Glob(p, t)
    decreases |p|, k
  {
    var cut := t[..k];
    if |p| == 1 {
      assert p == [STAR] + [];
      assert t[|t|..] == [];
      GlobStar([], t);
    } else if p[0] == STAR {
      if Glob(p[1..], cut) {
        GlobEndsWithStar(p[1..], t, k);
      } else {
        assert cut[1..] == t[1..][..k - 1];
        GlobEndsWithStar(p, t[1..], k - 1);
      }
    } else {
      assert cut[1..] == t[1..][..k - 1];
      GlobEndsWithStar(p[1..], t[1..], k - 1);
    }
  }

  // ---------------------------------------------------------------------------------------------
  // Leftmost placement uses up the least text.

  /** `part` stands in `text` at `k`. */
  predicate At(text: string, part: string, k: nat) {
    k + |part| <= |text| && text[k..k + |part|] == part
  }

  lemma {:induction false} FindLeftmost(text: string, part: string)
    ensures Find(text, part).Some? ==> At(text, part, Find(text, part).value)
    ensures forall k: nat :: At(text, part, k) ==> Find(text, part).Some? && Find(text, part).value <= k
    decreases |text|
  {
    assert part <= text ==> At(text, part, 0);
    assert At(text, part, 0) ==> part <= text;
    if !(part <= text) && |text| > 0 {
      FindLeftmost(text[1..], part);
      forall k: nat | At(text, part, k)
        ensures Find(text, part).Some? && Find(text, part).value <= k
      {
        assert k > 0;
        assert text[1..][k - 1..k - 1 + |part|] == text[k..k + |part|];
        assert At(text[1..], part, k - 1);
      }
      if Find(text, part).Some? {
        var k := Find(text[1..], part).value;
        assert text[1..][k..k + |part|] == text[k + 1..k + 1 + |part|];
      }
    }
  }

  /** A prefix of `text` that the starred parts match. */
  predicate Reaches(parts: seq<string>, text: string, k: nat) {
    k <= |text| && Glob(Starred(parts), text[..k])
  }

  /** If a starred pattern reaches `k`, its first part stands somewhere and the rest reaches on. */
  lemma ReachesSplits(parts: seq<string>, text: string, k: nat) returns (j: nat)
    requires |parts| > 0 && NoStars(parts)
    requires Reaches(parts, text, k)
    ensures At(text, parts[0], j) && j + |parts[0]| <= k
    ensures Reaches(parts[1..], text[j + |parts[0]|..], k - j - |parts[0]|)
  {
    var part, rest := parts[0], Starred(parts[1..]);
    var cut := text[..k];
    assert Starred(parts) == [STAR] + (part + rest);
    GlobStar(part + rest, cut);
    j :| 0 <= j <= |cut| && Glob(part + rest, cut[j..]);
    GlobLiteral(part, rest, cut[j..]);
    assert cut[j..][..|part|] == text[j..j + |part|];
    var used := j + |part|;
    assert cut[j..][|part|..] == text[used..][..k - used];
  }

  /** Conversely, a part in place and a continuation make the whole reach. */
  lemma ReachesJoins(parts: seq<string>, text: string, j: nat, k: nat)
    requires |parts| > 0 && NoStars(parts)
    requires At(text, parts[0], j)
    requires Reaches(parts[1..], text[j + |parts[0]|..], k)
    ensures Reaches(parts, text, j + |parts[0]| + k)
  {
    var part, rest := parts[0], Starred(parts[1..]);
    var used := j + |part|;
    var cut := text[..used + k];
    assert cut[j..][|part|..] == text[used..][..k];
    assert cut[j..][..|part|] == text[j..used];
    GlobLiteral(part, rest, cut[j..]);
    GlobStar(part + rest, cut);
    assert Starred(parts) == [STAR] + (part + rest);
  }

  /** Exchange: moving the first part to an earlier place loses nothing, because what follows it
      starts with a star. */
  lemma ReachesEarlier(parts: seq<string>, text: string, i: nat, j: nat, k: nat)
    requires i <= j <= k <= |text|
    requires Reaches(parts, text[j..], k - j)
    requires |parts| > 0
    ensures Reaches(parts, text[i..], k - i)
  {
    var long := text[i..][..k - i];
    assert long[j - i..] == text[j..][..k - j];
    assert Starred(parts) == [STAR] + (parts[0] + Starred(parts[1..]));
    GlobStarAbsorbs(parts[0] + Starred(parts[1..]), long, j - i);
  }

  lemma {:induction false} ConsumeReaches(parts: seq<string>, text: string)
    requires NoStars(parts) && Consume(parts, text).Some?
    ensures Reaches(parts, text, Consume(parts, text).value)
    decreases |parts|
  {
    if |parts| > 0 {
      FindLeftmost(text, parts[0]);
      var j := Find(text, parts[0]).value;
      var used := j + |parts[0]|;
      ConsumeReaches(parts[1..], text[used..]);
      ReachesJoins(parts, text, j, Consume(parts[1..], text[used..]).value);
    }
  }

  /** If the starred parts reach `k`, then with the first part at its leftmost place the others
      still reach `k`. */
  lemma LeftmostReaches(parts: seq<string>, text: string, k: nat) returns (used: nat)
    requires |parts| > 0 && NoStars(parts) && Reaches(parts, text, k)
    ensures Find(text, parts[0]).Some? && used == Find(text, parts[0]).value + |parts[0]|
    ensures used <= k
    ensures |parts| > 1 ==> Reaches(parts[1..], text[used..], k - used)
  {
    var j := ReachesSplits(parts, text, k);
    FindLeftmost(text, parts[0]);
    used := Find(text, parts[0]).value + |parts[0]|;
    if |parts| > 1 {
      ReachesEarlier(parts[1..], text, used, j + |parts[0]|, k);
    }
  }

  lemma {:induction false} ConsumeNoLater(parts: seq<string>, text: string, k: nat)
    requires NoStars(parts) && Reaches(parts, text, k)
    ensures Consume(parts, text).Some? && Consume(parts, text).value <= k
    decreases |parts|
  {
    if |parts| > 0 {
      var used := LeftmostReaches(parts, text, k);
      var rest, left := parts[1..], text[used..];
      if |rest| > 0 {
        ConsumeNoLater(rest, left, k - used);
      }
      assert Consume(rest, left).Some?;
    }
  }

  /** The greedy matcher succeeds exactly when some prefix matches, and then uses up the shortest
      one. */
  lemma ConsumeShortest(parts: seq<string>, text: string)
    requires NoStars(parts)
    ensures Consume(parts, text).Some? ==> Reaches(parts, text, Consume(parts, text).value)
    ensures forall k: nat :: Reaches(parts, text, k) ==>
              Consume(parts, text).Some? && Consume(parts, text).value <= k
  {
    if Consume(parts, text).Some? {
      ConsumeReaches(parts, text);
    }
    forall k: nat | Reaches(parts, text, k)
      ensures Consume(parts, text).Some? && Consume(parts, text).value <= k
    {
      ConsumeNoLater(parts, text, k);
    }
  }

  // ---------------------------------------------------------------------------------------------
  // What the matcher decides.

  /** Some prefix of the text of length `k` matches the pattern. */
  predicate PrefixMatches(p: string, t: string, k: nat) {
    k <= |t| && Glob(p, t[..k])
  }

  lemma PrefixSplits(p: string, t: string, k: nat)
    requires k <= |t|
    ensures var parts := SplitStars(p);
            PrefixMatches(p, t, k) <==>
            |parts[0]| <= k && parts[0] <= t && Reaches(parts[1..], t[|parts[0]|..], k - |parts[0]|)
  {
    SplitStarsJoins(p);
    var parts := SplitStars(p);
    GlobLiteral(parts[0], Starred(parts[1..]), t[..k]);
    if |parts[0]| <= k {
      assert t[..k][|parts[0]|..] == t[|parts[0]|..][..k - |parts[0]|];
    }
  }

  /** For every pattern with a star and every text: the matcher says yes exactly when the text has
      a matching prefix that is the whole text, or any at all if the pattern ends with a star,
      where only the shortest matching prefix is considered. */
  lemma MatchesIsShortestPrefix(p: string, t: string)
    requires STAR in p
    ensures Matches(p, t) <==>
            if p[|p| - 1] == STAR then exists k: nat :: PrefixMatches(p, t, k)
            else PrefixMatches(p, t, |t|) && forall k :: 0 <= k < |t| ==> !PrefixMatches(p, t, k)
  {
    hide Glob, Find, SplitStars, Starred, Consume, Reaches;
    SplitStarsJoins(p);
    var parts := SplitStars(p);
    var head := |parts[0]|;
    if parts[0] <= t {
      ConsumeShortest(parts[1..], t[head..]);
      LeftoverConsumes(parts[1..], t[head..]);
    }
    forall k | 0 <= k <= |t|
      ensures PrefixMatches(p, t, k) <==>
              head <= k && parts[0] <= t && Reaches(parts[1..], t[head..], k - head)
    {
      PrefixSplits(p, t, k);
    }
    if parts[0] <= t && Consume(parts[1..], t[head..]).Some? {
      var end := head + Consume(parts[1..], t[head..]).value;
      assert PrefixMatches(p, t, end);
      assert forall k: nat :: PrefixMatches(p, t, k) ==> end <= k;
    }
  }

  /** For patterns with a star, a match is always a glob match, and for patterns that end with a
      star the two are the same. */
  lemma MatchesVersusGlob(p: string, t: string)
    requires STAR in p
    ensures Matches(p, t) ==> Glob(p, t)
    ensures p[|p| - 1] == STAR ==> (Matches(p, t) <==> Glob(p, t))
  {
    MatchesIsShortestPrefix(p, t);
    assert t[..|t|] == t;
    if p[|p| - 1] == STAR {
      if k: nat :| PrefixMatches(p, t, k) {
        GlobEndsWithStar(p, t, k);
      }
      if Glob(p, t) {
        assert PrefixMatches(p, t, |t|);
      }
    }
  }

  /** A pattern without a star asks for a substring: it is the glob with a star on both sides. */
  lemma PlainPatternIsSubstring(p: string, t: string)
    requires STAR !in p
    ensures Matches(p, t) <==> Glob([STAR] + p + [STAR], t)
  {
    FindLeftmost(t, p);
    assert [STAR] + p + [STAR] == [STAR] + (p + [STAR]);
    GlobStar(p + [STAR], t);
    forall k | 0 <= k <= |t|
      ensures Glob(p + [STAR], t[k..]) <==> At(t, p, k)
    {
      GlobLiteral(p, [STAR], t[k..]);
      if |p| <= |t| - k {
        assert t[k..][..|p|] == t[k..k + |p|];
        var rest := t[k..][|p|..];
        GlobStar([], rest);
        assert [STAR] + [] == [STAR] && rest[|rest|..] == [];
      }
    }
  }

  /** The matcher is not a complete glob: a pattern that ends with a literal part is refused when
      that part also occurs earlier. */
  lemma LiteralEndIsIncomplete()
    ensures Glob("*a", "aba") && !Matches("*a", "aba")
  {
    assert "aba"[2..] == "a" && "a"[1..] == "";
    assert "*a" == [STAR] + "a";
    GlobStar("a", "aba");
    assert Glob("a", "aba"[2..]);
    MatchesIsShortestPrefix("*a", "aba");
    assert "aba"[..1] == "a" && "a"[0..] == "a";
    GlobStar("a", "a");
    assert PrefixMatches("*a", "aba", 1);
  }
}
