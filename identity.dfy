/** The identity pattern applied to line 1 of a block,
    `NAME:(\S+).*?DEVID:(\S+).*?LNN:(\S+).*?SERNO:(\S+).*?EXT-IP:\s*([0-9.]+)`,
    as `re.search` runs it: the leftmost start first; at each `(\S+)` the
    longest token first, giving back characters only when the rest fails; at
    each `.*?` the shortest gap first, never across a line feed. Beside the
    matcher stands a declarative description of the lines it accepts and of
    the groups it chooses; the two are proved to accept the same lines and to
    choose the same groups. */
module Identity {
  import opened Wrappers
  import opened Text

  /** The five labels in the order the pattern demands them. The first four
      are followed by a `(\S+)` group, the last by `\s*([0-9.]+)`. */
  const Labels: seq<string> := ["NAME:", "DEVID:", "LNN:", "SERNO:", "EXT-IP:"]

  /** The five groups of a match. */
  datatype Ident = Ident(name: string, devid: string, lnn: string, serno: string, extip: string)

  /** The class `[0-9.]`. */
  predicate IsIpChar(c: char) {
    IsDigit(c) || c == '.'
  }

  predicate IsIpToken(t: string) {
    |t| > 0 && forall i | 0 <= i < |t| :: IsIpChar(t[i])
  }

  predicate NoLineFeed(s: string, i: nat, j: nat) {
    i <= j <= |s| && forall t | i <= t < j :: s[t] != '\n'
  }

  /** End of the longest run of digits and dots from `i`. */
  function IpEnd(s: string, i: nat): (e: nat)
    requires i <= |s|
    decreases |s| - i
    ensures i <= e <= |s| && forall t | i <= t < e :: IsIpChar(s[t])
    ensures e == |s| || !IsIpChar(s[e])
  {
    if i < |s| && IsIpChar(s[i]) then IpEnd(s, i + 1) else i
  }

  // ---------------------------------------------------------------------
  // The matcher, in the order in which the regular expression engine tries
  // the alternatives. Stage k (0 to 4) starts at label k.
  // ---------------------------------------------------------------------

  /** The pattern from label `k` on, tried at position `p`; the result holds
      the groups of the labels `k` to 4. */
  function MatchFrom(s: string, p: nat, k: nat): (r: Option<seq<string>>)
    requires k < 5 && p <= |s|
    decreases 4 - k, 2, 0
    ensures r.Some? ==> |r.value| == 5 - k
  {
    if !OccursAt(s, Labels[k], p) then None
    else
      var a := p + |Labels[k]|;
      if k == 4 then
        // `\s*` takes all the whitespace, since `[0-9.]` never matches a space.
        var w := SpaceEnd(s, a);
        var e := IpEnd(s, w);
        if w < e then Some([s[w..e]]) else None
      else
        var e := TokenEnd(s, a);
        if e == a then None else Greedy(s, a, e, k)
  }

  /** The group `(\S+)` of label `k`, from `a` to `e` and, if the rest fails,
      one character shorter, down to a single character. */
  function Greedy(s: string, a: nat, e: nat, k: nat): (r: Option<seq<string>>)
    requires k < 4 && a < e <= |s|
    decreases 4 - k, 1, e
    ensures r.Some? ==> |r.value| == 5 - k
  {
    match Lazy(s, e, k + 1)
    case Some(g) => Some([s[a..e]] + g)
    case None => if e - 1 > a then Greedy(s, a, e - 1, k) else None
  }

  /** The gap `.*?` before label `j`: label `j` is tried at `q`, then one
      character further on, as long as no line feed is skipped. */
  function Lazy(s: string, q: nat, j: nat): (r: Option<seq<string>>)
    requires 1 <= j < 5 && q <= |s|
    decreases 5 - j, 0, |s| - q
    ensures r.Some? ==> |r.value| == 5 - j
  {
    match MatchFrom(s, q, j)
    case Some(g) => Some(g)
    case None => if q < |s| && s[q] != '\n' then Lazy(s, q + 1, j) else None
  }

  /** `re.search`: the whole pattern at `p`, then at every later start. */
  function SearchFrom(s: string, p: nat): (r: Option<seq<string>>)
    requires p <= |s|
    decreases |s| - p
    ensures r.Some? ==> |r.value| == 5
  {
    match MatchFrom(s, p, 0)
    case Some(g) => Some(g)
    case None => if p < |s| then SearchFrom(s, p + 1) else None
  }

  /** The identity pattern on line 1 of a block, with its five groups: four
      tokens and a run of digits and dots. */
  function MatchIdentity(line: string): (r: Option<Ident>)
    ensures r.None? <==> SearchFrom(line, 0).None?
    ensures r.Some? ==> && IsToken(r.value.name) && IsToken(r.value.devid) && IsToken(r.value.lnn)
                        && IsToken(r.value.serno) && IsIpToken(r.value.extip)
  {
    match SearchFrom(line, 0)
    case None => None
    case Some(g) =>
      SearchGroups(line);
      Some(Ident(g[0], g[1], g[2], g[3], g[4]))
  }

  // ---------------------------------------------------------------------
  // What a match is, independently of the search order.
  // ---------------------------------------------------------------------

  /** Label `k` occurs at `p` and is followed by its group `g[0]`; then, for
      k < 4, a gap without line feed leads to the next label, and so on. For
      the last label the group is a run of digits and dots after optional
      whitespace. */
  ghost predicate ShapeAt(s: string, p: nat, k: nat, g: seq<string>)
    requires k < 5
    decreases 4 - k, 2
  {
    && |g| == 5 - k
    && OccursAt(s, Labels[k], p)
    && if k == 4 then IpAfter(s, p + |Labels[k]|, g[0])
       else TokenThen(s, p + |Labels[k]|, k, g[0], g[1..])
  }

  /** `\s*([0-9.]+)` at `a`, with group `t`: the whole run of digits and
      dots that follows the whitespace. */
  ghost predicate IpAfter(s: string, a: nat, t: string) {
    exists w: nat :: && AllSpaceIn(s, a, w) && IsIpToken(t) && OccursAt(s, t, w)
                     && (w + |t| == |s| || !IsIpChar(s[w + |t|]))
  }

  /** `(\S+)` at `a` with group `t`, then a gap and the pattern from label
      k + 1 on, with groups `g`. */
  ghost predicate TokenThen(s: string, a: nat, k: nat, t: string, g: seq<string>)
    requires k < 4
    decreases 4 - k, 1
  {
    IsToken(t) && OccursAt(s, t, a) && GapThen(s, a + |t|, k + 1, g)
  }

  /** Some gap without a line feed from `e` leads to a place where the pattern
      from label `j` on matches with groups `g`. */
  ghost predicate GapThen(s: string, e: nat, j: nat, g: seq<string>)
    requires 1 <= j < 5
    decreases 4 - j, 3
  {
    exists q: nat :: NoLineFeed(s, e, q) && ShapeAt(s, q, j, g)
  }

  // Soundness: what the matcher returns is a match.

  lemma {:induction false} MatchSound(s: string, p: nat, k: nat)
    requires k < 5 && p <= |s|
    requires MatchFrom(s, p, k).Some?
    ensures ShapeAt(s, p, k, MatchFrom(s, p, k).value)
    decreases 4 - k, 2, 0
  {
    var a := p + |Labels[k]|;
    if k == 4 {
      IpStageSound(s, p);
    } else {
      var e := TokenEnd(s, a);
      assert MatchFrom(s, p, k) == Greedy(s, a, e, k);
      GreedySound(s, a, e, k);
    }
  }

  lemma IpStageSound(s: string, p: nat)
    requires p <= |s| && MatchFrom(s, p, 4).Some?
    ensures ShapeAt(s, p, 4, MatchFrom(s, p, 4).value)
  {
    var a := p + |Labels[4]|;
    var w := SpaceEnd(s, a);
    var e := IpEnd(s, w);
    var g := MatchFrom(s, p, 4).value;
    assert g == [s[w..e]];
    assert OccursAt(s, g[0], w);
  }

  lemma {:induction false} GreedySound(s: string, a: nat, e: nat, k: nat)
    requires k < 4 && a < e <= |s| && NoSpaceIn(s, a, e)
    requires Greedy(s, a, e, k).Some?
    ensures var g := Greedy(s, a, e, k).value; TokenThen(s, a, k, g[0], g[1..])
    decreases 4 - k, 1, e
  {
    if Lazy(s, e, k + 1).Some? {
      var g := Lazy(s, e, k + 1).value;
      LazySound(s, e, k + 1);
      TokenThenOfRun(s, a, e, k, g);
    } else {
      assert Greedy(s, a, e, k) == Greedy(s, a, e - 1, k);
      GreedySound(s, a, e - 1, k);
    }
  }

  lemma TokenThenOfRun(s: string, a: nat, e: nat, k: nat, g: seq<string>)
    requires k < 4 && a < e <= |s| && NoSpaceIn(s, a, e)
    requires GapThen(s, e, k + 1, g)
    ensures var r := [s[a..e]] + g; TokenThen(s, a, k, r[0], r[1..])
  {
    var r := [s[a..e]] + g;
    assert r[0] == s[a..e] && r[1..] == g;
    assert OccursAt(s, r[0], a) && IsToken(r[0]);
  }

  lemma {:induction false} LazySound(s: string, q: nat, j: nat)
    requires 1 <= j < 5 && q <= |s|
    requires Lazy(s, q, j).Some?
    ensures GapThen(s, q, j, Lazy(s, q, j).value)
    decreases 5 - j, 0, |s| - q
  {
    var g := Lazy(s, q, j).value;
    if MatchFrom(s, q, j).Some? {
      MatchSound(s, q, j);
      assert NoLineFeed(s, q, q) && ShapeAt(s, q, j, g);
    } else {
      LazySound(s, q + 1, j);
      var q' :| NoLineFeed(s, q + 1, q') && ShapeAt(s, q', j, g);
      assert NoLineFeed(s, q, q');
    }
  }

  // Completeness: wherever the pattern can match, the matcher finds a match.

  lemma {:induction false} MatchComplete(s: string, p: nat, k: nat, g: seq<string>)
    requires k < 5 && p <= |s|
    requires ShapeAt(s, p, k, g)
    ensures MatchFrom(s, p, k).Some?
    decreases 4 - k, 2, 0
  {
    if k == 4 {
      IpStageComplete(s, p, g[0]);
    } else {
      TokenStageComplete(s, p, k, g[0], g[1..]);
    }
  }

  lemma IpStageComplete(s: string, p: nat, t: string)
    requires OccursAt(s, Labels[4], p) && IpAfter(s, p + |Labels[4]|, t)
    ensures MatchFrom(s, p, 4).Some?
  {
    var a := p + |Labels[4]|;
    var w: nat :| AllSpaceIn(s, a, w) && IsIpToken(t) && OccursAt(s, t, w);
    assert s[w] == t[0];
    assert SpaceEnd(s, a) == w;
  }

  lemma {:induction false} TokenStageComplete(s: string, p: nat, k: nat, t: string, g: seq<string>)
    requires k < 4 && OccursAt(s, Labels[k], p)
    requires TokenThen(s, p + |Labels[k]|, k, t, g)
    ensures MatchFrom(s, p, k).Some?
    decreases 4 - k, 1, |s| + 2
  {
    GreedyStageComplete(s, p + |Labels[k]|, k, t, g);
    TokenStageStart(s, p, k, t);
  }

  /** Where a token `t` follows at `a` and the rest of the pattern matches
      after a gap, the greedy stage from `a` succeeds. */
  lemma {:induction false} GreedyStageComplete(s: string, a: nat, k: nat, t: string, g: seq<string>)
    requires k < 4 && TokenThen(s, a, k, t, g)
    ensures Greedy(s, a, TokenEnd(s, a), k).Some?
    decreases 4 - k, 1, |s| + 1
  {
    TokenWithinRun(s, a, t);
    GreedyComplete(s, a, TokenEnd(s, a), k, a + |t|, g);
  }

  /** Once label `k` and a token follow at `p`, the matcher goes on to the
      greedy stage with the whole run of non-space after the label. */
  lemma TokenStageStart(s: string, p: nat, k: nat, t: string)
    requires k < 4 && OccursAt(s, Labels[k], p)
    requires IsToken(t) && OccursAt(s, t, p + |Labels[k]|)
    requires Greedy(s, p + |Labels[k]|, TokenEnd(s, p + |Labels[k]|), k).Some?
    ensures MatchFrom(s, p, k).Some?
  {
    TokenWithinRun(s, p + |Labels[k]|, t);
  }

  /** A token found at `a` lies within the longest run of non-space from `a`. */
  lemma TokenWithinRun(s: string, a: nat, t: string)
    requires IsToken(t) && OccursAt(s, t, a)
    ensures a + |t| <= TokenEnd(s, a)
  {
    assert forall i | a <= i < a + |t| :: s[i] == t[i - a];
  }

  lemma {:induction false} GreedyComplete(s: string, a: nat, e: nat, k: nat, e': nat, g: seq<string>)
    requires k < 4 && a < e' <= e <= |s|
    requires GapThen(s, e', k + 1, g)
    ensures Greedy(s, a, e, k).Some?
    decreases 4 - k, 1, e
  {
    if Lazy(s, e, k + 1).None? {
      if e == e' {
        var q: nat :| NoLineFeed(s, e', q) && ShapeAt(s, q, k + 1, g);
        LazyComplete(s, e', k + 1, q, g);
      } else {
        GreedyComplete(s, a, e - 1, k, e', g);
      }
    }
  }

  lemma {:induction false} LazyComplete(s: string, q: nat, j: nat, q': nat, g: seq<string>)
    requires 1 <= j < 5
    requires NoLineFeed(s, q, q') && ShapeAt(s, q', j, g)
    ensures Lazy(s, q, j).Some?
    decreases 5 - j, 0, q' - q
  {
    if MatchFrom(s, q, j).None? {
      if q == q' {
        MatchComplete(s, q', j, g);
      } else {
        LazyComplete(s, q + 1, j, q', g);
      }
    }
  }

  // Which match: each group as long as possible, each gap as short as possible.

  /** The group `(\S+)` the greedy stage captures from `a` ends at `m`: the
      last end up to `e` from which the gap stage succeeds. */
  lemma {:induction false} GreedyLongest(s: string, a: nat, e: nat, k: nat) returns (m: nat)
    requires k < 4 && a < e <= |s| && Greedy(s, a, e, k).Some?
    ensures a < m <= e && Greedy(s, a, e, k).value[0] == s[a..m] && Lazy(s, m, k + 1).Some?
    ensures Greedy(s, a, e, k).value[1..] == Lazy(s, m, k + 1).value
    ensures var j := k + 1; forall e': nat | m < e' <= e :: Lazy(s, e', j).None?
    decreases e
  {
    var j := k + 1;
    var r := Lazy(s, e, j);
    if r.Some? {
      m := e;
      GreedyStops(s, a, e, k);
    } else {
      assert e - 1 > a;
      assert Greedy(s, a, e, k) == Greedy(s, a, e - 1, k);
      m := GreedyLongest(s, a, e - 1, k);
      assert forall e': nat | m < e' <= e - 1 :: Lazy(s, e', j).None?;
    }
  }

  /** Where the gap stage succeeds after the whole token, the greedy stage
      keeps the whole token. */
  lemma GreedyStops(s: string, a: nat, e: nat, k: nat)
    requires k < 4 && a < e <= |s| && Lazy(s, e, k + 1).Some?
    ensures Greedy(s, a, e, k).Some? && Greedy(s, a, e, k).value[0] == s[a..e]
    ensures Greedy(s, a, e, k).value[1..] == Lazy(s, e, k + 1).value
  {
    var g := Lazy(s, e, k + 1).value;
    assert Greedy(s, a, e, k).value == [s[a..e]] + g;
    assert ([s[a..e]] + g)[1..] == g;
  }

  /** Where the gap stage fails, the rest of the pattern cannot follow. */
  lemma NoGapAt(s: string, e: nat, j: nat)
    requires 1 <= j < 5 && e <= |s| && Lazy(s, e, j).None?
    ensures forall g :: !GapThen(s, e, j, g)
  {
    forall g | GapThen(s, e, j, g)
      ensures false
    {
      var q: nat :| NoLineFeed(s, e, q) && ShapeAt(s, q, j, g);
      LazyComplete(s, e, j, q, g);
    }
  }

  /** No end of a group after `lo` and up to `hi` lets the rest of the
      pattern, from label `j` on, follow. */
  ghost predicate NoGapBetween(s: string, lo: nat, hi: nat, j: nat)
    requires 1 <= j < 5
  {
    forall e': nat, g | lo < e' <= hi :: !GapThen(s, e', j, g)
  }

  /** From label `k` < 4 at `p`, the group is the longest token after the
      label that still lets the rest of the pattern match, and the rest of
      the groups are what the gap stage after it returns. The next label's
      index `j` is a parameter, equal to `k + 1`, so that callers with a
      literal `k` get the predicate on a literal `j`. */
  lemma MatchFromLongest(s: string, p: nat, k: nat, j: nat) returns (m: nat)
    requires k < 4 && j == k + 1 && p <= |s| && MatchFrom(s, p, k).Some?
    ensures p + |Labels[k]| < m <= TokenEnd(s, p + |Labels[k]|)
    ensures MatchFrom(s, p, k).value[0] == s[p + |Labels[k]|..m]
    ensures Lazy(s, m, j).Some? && MatchFrom(s, p, k).value[1..] == Lazy(s, m, j).value
    ensures NoGapBetween(s, m, TokenEnd(s, p + |Labels[k]|), j)
  {
    var a := p + |Labels[k]|;
    assert MatchFrom(s, p, k) == Greedy(s, a, TokenEnd(s, a), k);
    m := GreedyLongest(s, a, TokenEnd(s, a), k);
    forall e': nat, g | m < e' <= TokenEnd(s, a)
      ensures !GapThen(s, e', j, g)
    {
      NoGapAt(s, e', j);
    }
  }

  /** The gap `.*?` before label `j` is the shortest one: the match of the
      rest of the pattern starts at `q'`, the first place from `q` on, with
      no line feed before it, where the rest of the pattern can match. */
  lemma {:induction false} LazyShortest(s: string, q: nat, j: nat) returns (q': nat)
    requires 1 <= j < 5 && q <= |s| && Lazy(s, q, j).Some?
    ensures q' <= |s| && NoLineFeed(s, q, q') && MatchFrom(s, q', j) == Lazy(s, q, j)
    ensures forall r: nat, g | q <= r < q' :: !ShapeAt(s, r, j, g)
    decreases |s| - q
  {
    if MatchFrom(s, q, j).Some? {
      q' := q;
    } else {
      q' := LazyShortest(s, q + 1, j);
      forall r: nat, g | q <= r < q'
        ensures !ShapeAt(s, r, j, g)
      {
        if r == q && ShapeAt(s, r, j, g) {
          MatchComplete(s, r, j, g);
        }
      }
    }
  }

  // ---------------------------------------------------------------------
  // Which groups the matcher chooses, independently of the search order.
  // ---------------------------------------------------------------------

  /** `q` is the end of the shortest gap `.*?` from `m` before label `j`: no
      line feed is skipped, and the rest of the pattern matches at no
      earlier place. */
  ghost predicate ShortestGap(s: string, m: nat, q: nat, j: nat)
    requires 1 <= j < 5
  {
    NoLineFeed(s, m, q) && forall r: nat, g | m <= r < q :: !ShapeAt(s, r, j, g)
  }

  /** Label `k` < 4 starts at `p`, its group `t` is the longest token after
      which the rest of the pattern can follow, and the shortest gap after
      it reaches label `k + 1` at `q`. */
  ghost predicate ChosenStep(s: string, p: nat, q: nat, k: nat, t: string)
    requires k < 4
  {
    && OccursAt(s, Labels[k], p)
    && var a := p + |Labels[k]|;
       var m := a + |t|;
       var j := k + 1;
       && IsToken(t) && OccursAt(s, t, a)
       && NoGapBetween(s, m, TokenEnd(s, a), j)
       && ShortestGap(s, m, q, j)
  }

  /** The last label starts at `p` and its group `t` is the whole run of
      digits and dots after the whitespace that follows it. */
  ghost predicate ChosenLast(s: string, p: nat, t: string) {
    OccursAt(s, Labels[4], p) && IpAfter(s, p + |Labels[4]|, t)
  }

  /** The groups `g` are the ones the regular expression engine picks from
      label `k` on, with the labels `k` to 4 starting at `ps`: each `(\S+)`
      group is the longest token after which the rest of the pattern can
      follow, each gap is the shortest, and the EXT-IP group is the whole
      run of digits and dots after the whitespace. */
  ghost predicate ChosenAt(s: string, ps: seq<nat>, k: nat, g: seq<string>)
    requires k < 5
  {
    && |ps| == 5 - k && |g| == 5 - k
    && (forall i | 0 <= i < 4 - k :: ChosenStep(s, ps[i], ps[i + 1], k + i, g[i]))
    && ChosenLast(s, ps[4 - k], g[4 - k])
  }

  /** A chosen match from label `k` < 4 is its first step followed by a
      chosen match from label `k + 1`. */
  lemma ChosenCons(s: string, ps: seq<nat>, k: nat, g: seq<string>)
    requires k < 4 && |ps| == 5 - k && |g| == 5 - k
    ensures ChosenAt(s, ps, k, g) <==>
            ChosenStep(s, ps[0], ps[1], k, g[0]) && ChosenAt(s, ps[1..], k + 1, g[1..])
  {
    if ChosenStep(s, ps[0], ps[1], k, g[0]) && ChosenAt(s, ps[1..], k + 1, g[1..]) {
      forall i | 0 <= i < 4 - k
        ensures ChosenStep(s, ps[i], ps[i + 1], k + i, g[i])
      {
        if i > 0 {
          assert ps[i] == ps[1..][i - 1] && ps[i + 1] == ps[1..][i] && g[i] == g[1..][i - 1];
        }
      }
      assert ps[4 - k] == ps[1..][3 - k] && g[4 - k] == g[1..][3 - k];
    }
    if ChosenAt(s, ps, k, g) {
      forall i | 0 <= i < 3 - k
        ensures ChosenStep(s, ps[1..][i], ps[1..][i + 1], k + 1 + i, g[1..][i])
      {
        assert ChosenStep(s, ps[i + 1], ps[i + 2], k + (i + 1), g[i + 1]);
      }
      assert ps[1..][3 - k] == ps[4 - k] && g[1..][3 - k] == g[4 - k];
    }
  }

  /** A chosen match is an occurrence of the pattern. */
  lemma {:induction false} ChosenShape(s: string, ps: seq<nat>, k: nat, g: seq<string>)
    requires k < 5 && ChosenAt(s, ps, k, g)
    ensures ShapeAt(s, ps[0], k, g)
    decreases 4 - k
  {
    if k < 4 {
      ChosenCons(s, ps, k, g);
      ChosenShape(s, ps[1..], k + 1, g[1..]);
      ChosenStepShape(s, ps[0], ps[1], k, g[0], g[1..]);
    }
  }

  /** One chosen step followed by an occurrence of the rest of the pattern
      is an occurrence of the pattern from label `k`. */
  lemma ChosenStepShape(s: string, p: nat, q: nat, k: nat, t: string, g: seq<string>)
    requires k < 4 && |g| == 4 - k && ChosenStep(s, p, q, k, t) && ShapeAt(s, q, k + 1, g)
    ensures ShapeAt(s, p, k, [t] + g)
  {
    assert ([t] + g)[0] == t && ([t] + g)[1..] == g;
    assert GapThen(s, p + |Labels[k]| + |t|, k + 1, g);
  }

  /** From label `k` < 4 at `p`, the matcher takes a chosen step to the
      next label at `q`, and the rest of its groups are what it returns
      from there. */
  lemma MatchStep(s: string, p: nat, k: nat, j: nat) returns (q: nat)
    requires k < 4 && j == k + 1 && p <= |s| && MatchFrom(s, p, k).Some?
    ensures q <= |s| && MatchFrom(s, q, j).Some?
    ensures ChosenStep(s, p, q, k, MatchFrom(s, p, k).value[0])
    ensures MatchFrom(s, q, j).value == MatchFrom(s, p, k).value[1..]
  {
    var m := MatchFromLongest(s, p, k, j);
    q := LazyShortest(s, m, j);
    MatchSound(s, p, k);
  }

  /** What the matcher returns from label `k` at `p` is the chosen match,
      with the labels starting at `ps`. */
  lemma {:induction false} MatchChosen(s: string, p: nat, k: nat) returns (ps: seq<nat>)
    requires k < 5 && p <= |s| && MatchFrom(s, p, k).Some?
    ensures |ps| == 5 - k && ps[0] == p && ChosenAt(s, ps, k, MatchFrom(s, p, k).value)
    decreases 4 - k
  {
    MatchSound(s, p, k);
    var g := MatchFrom(s, p, k).value;
    if k == 4 {
      ps := [p];
      assert ChosenLast(s, p, g[0]);
    } else {
      var q := MatchStep(s, p, k, k + 1);
      var rest := MatchChosen(s, q, k + 1);
      ps := [p] + rest;
      assert ps[0] == p && ps[1] == q && ps[1..] == rest;
      ChosenCons(s, ps, k, g);
    }
  }

  /** An EXT-IP group starts where the whitespace after the label ends and
      ends where the run of digits and dots ends. */
  lemma IpEnds(s: string, a: nat, w: nat, t: string)
    requires AllSpaceIn(s, a, w) && IsIpToken(t) && OccursAt(s, t, w)
    requires w + |t| == |s| || !IsIpChar(s[w + |t|])
    ensures w == SpaceEnd(s, a) && w + |t| == IpEnd(s, w)
  {
    assert s[w] == t[0];
    forall i | w <= i < w + |t|
      ensures IsIpChar(s[i])
    {
      assert s[i] == t[i - w];
    }
  }

  /** The EXT-IP group is the run of digits and dots from the end of the
      whitespace after the label. */
  lemma IpGroupSpan(s: string, a: nat, t: string)
    requires IpAfter(s, a, t)
    ensures a <= |s| && t == s[SpaceEnd(s, a)..IpEnd(s, SpaceEnd(s, a))]
  {
    var w: nat :| && AllSpaceIn(s, a, w) && IsIpToken(t) && OccursAt(s, t, w)
                  && (w + |t| == |s| || !IsIpChar(s[w + |t|]));
    IpEnds(s, a, w, t);
  }

  /** Two ends that each leave no later end, up to `hi`, from which the rest
      of the pattern follows are the same. */
  lemma SameEnd(s: string, m: nat, m': nat, hi: nat, j: nat, g: seq<string>, g': seq<string>)
    requires 1 <= j < 5
    requires GapThen(s, m, j, g) && GapThen(s, m', j, g')
    requires NoGapBetween(s, m, hi, j) && NoGapBetween(s, m', hi, j)
    requires m <= hi && m' <= hi
    ensures m == m'
  {
  }

  /** Two shortest gaps from the same place, each followed by the rest of
      the pattern, end at the same place. */
  lemma SameGap(s: string, m: nat, q: nat, q': nat, j: nat, g: seq<string>, g': seq<string>)
    requires 1 <= j < 5
    requires ShortestGap(s, m, q, j) && ShortestGap(s, m, q', j)
    requires ShapeAt(s, q, j, g) && ShapeAt(s, q', j, g')
    ensures q == q'
  {
  }

  /** The group of a chosen step is the text from the end of the label to
      its end, within the token there, and the rest of the pattern follows. */
  lemma StepGroup(s: string, p: nat, q: nat, k: nat, t: string, g: seq<string>)
    requires k < 4 && ChosenStep(s, p, q, k, t) && ShapeAt(s, q, k + 1, g)
    ensures var a := p + |Labels[k]|;
      && a + |t| <= TokenEnd(s, a) && t == s[a..a + |t|] && GapThen(s, a + |t|, k + 1, g)
  {
    var a := p + |Labels[k]|;
    TokenWithinRun(s, a, t);
    assert NoLineFeed(s, a + |t|, q);
  }

  /** Two chosen steps from the same start, each followed by the rest of the
      pattern, have the same group and reach the next label at the same
      place. */
  lemma ChosenStepUnique(s: string, p: nat, q: nat, q': nat, k: nat, t: string, t': string,
                         g: seq<string>, g': seq<string>)
    requires k < 4 && ChosenStep(s, p, q, k, t) && ChosenStep(s, p, q', k, t')
    requires ShapeAt(s, q, k + 1, g) && ShapeAt(s, q', k + 1, g')
    ensures t == t' && q == q'
  {
    var a := p + |Labels[k]|;
    StepGroup(s, p, q, k, t, g);
    StepGroup(s, p, q', k, t', g');
    SameEnd(s, a + |t|, a + |t'|, TokenEnd(s, a), k + 1, g, g');
    SameGap(s, a + |t|, q, q', k + 1, g, g');
  }

  /** Two chosen EXT-IP groups after the same label are the same. */
  lemma ChosenLastUnique(s: string, p: nat, t: string, t': string)
    requires ChosenLast(s, p, t) && ChosenLast(s, p, t')
    ensures t == t'
  {
    IpGroupSpan(s, p + |Labels[4]|, t);
    IpGroupSpan(s, p + |Labels[4]|, t');
  }

  /** Two sequences that agree in their first element and in the rest are
      the same. */
  lemma HeadTail<T>(x: seq<T>, y: seq<T>)
    requires |x| > 0 && |y| > 0 && x[0] == y[0] && x[1..] == y[1..]
    ensures x == y
  {
    assert x == [x[0]] + x[1..] && y == [y[0]] + y[1..];
  }

  /** From one start there is only one chosen match: the same label starts
      and the same groups. */
  lemma {:induction false} ChosenUnique(s: string, ps: seq<nat>, ps': seq<nat>, k: nat, g: seq<string>, g': seq<string>)
    requires k < 5 && ChosenAt(s, ps, k, g) && ChosenAt(s, ps', k, g') && ps[0] == ps'[0]
    ensures ps == ps' && g == g'
    decreases 4 - k
  {
    if k == 4 {
      ChosenLastUnique(s, ps[0], g[0], g'[0]);
      HeadTail(ps, ps');
      HeadTail(g, g');
    } else {
      ChosenCons(s, ps, k, g);
      ChosenCons(s, ps', k, g');
      ChosenShape(s, ps[1..], k + 1, g[1..]);
      ChosenShape(s, ps'[1..], k + 1, g'[1..]);
      ChosenStepUnique(s, ps[0], ps[1], ps'[1], k, g[0], g'[0], g[1..], g'[1..]);
      ChosenUnique(s, ps[1..], ps'[1..], k + 1, g[1..], g'[1..]);
      HeadTail(ps, ps');
      HeadTail(g, g');
    }
  }

  /** `re.search` returns the match at the leftmost start from `p` on where
      the pattern can match at all. */
  lemma {:induction false} SearchSound(s: string, p: nat) returns (p': nat)
    requires p <= |s| && SearchFrom(s, p).Some?
    ensures p <= p' <= |s| && MatchFrom(s, p', 0) == SearchFrom(s, p)
    ensures ShapeAt(s, p', 0, SearchFrom(s, p).value)
    ensures forall q: nat, g | p <= q < p' :: !ShapeAt(s, q, 0, g)
    decreases |s| - p
  {
    if MatchFrom(s, p, 0).Some? {
      MatchSound(s, p, 0);
      p' := p;
    } else {
      p' := SearchSound(s, p + 1);
      forall q: nat, g | p <= q < p'
        ensures !ShapeAt(s, q, 0, g)
      {
        if q == p && ShapeAt(s, q, 0, g) {
          MatchComplete(s, q, 0, g);
        }
      }
    }
  }

  lemma {:induction false} SearchComplete(s: string, p: nat, p': nat, g: seq<string>)
    requires p <= p' <= |s| && ShapeAt(s, p', 0, g)
    ensures SearchFrom(s, p).Some?
    decreases p' - p
  {
    if MatchFrom(s, p, 0).None? {
      if p == p' {
        MatchComplete(s, p', 0, g);
      } else {
        SearchComplete(s, p + 1, p', g);
      }
    }
  }

  /** The groups of a match are tokens, the last one of digits and dots. */
  lemma {:induction false} ShapeGroups(s: string, p: nat, k: nat, g: seq<string>)
    requires k < 5 && ShapeAt(s, p, k, g)
    ensures forall i | 0 <= i < |g| - 1 :: IsToken(g[i])
    ensures IsIpToken(g[|g| - 1])
    decreases 4 - k
  {
    if k < 4 {
      var a := p + |Labels[k]|;
      assert TokenThen(s, a, k, g[0], g[1..]);
      assert GapThen(s, a + |g[0]|, k + 1, g[1..]);
      var q: nat :| NoLineFeed(s, a + |g[0]|, q) && ShapeAt(s, q, k + 1, g[1..]);
      ShapeGroups(s, q, k + 1, g[1..]);
      forall i | 0 <= i < |g| - 1 ensures IsToken(g[i]) {
        if i > 0 {
          assert g[i] == g[1..][i - 1];
        }
      }
      assert g[|g| - 1] == g[1..][|g| - 2];
    } else {
      assert IpAfter(s, p + |Labels[k]|, g[0]);
    }
  }

  /** Line 1 of a block matches the identity pattern exactly when the five
      labels occur in order, each followed by its group (a token, or for
      EXT-IP: optional whitespace and a run of digits and dots), with gaps
      free of line feeds between them. */
  lemma IdentityMatchesIff(line: string)
    ensures MatchIdentity(line).Some? ==> exists p: nat, g :: p <= |line| && ShapeAt(line, p, 0, g)
    ensures (exists p: nat, g :: p <= |line| && ShapeAt(line, p, 0, g)) ==> MatchIdentity(line).Some?
  {
    if MatchIdentity(line).Some? {
      var g := SearchFrom(line, 0).value;
      var p := SearchSound(line, 0);
      assert p <= |line| && ShapeAt(line, p, 0, g);
    }
    if exists p: nat, g :: p <= |line| && ShapeAt(line, p, 0, g) {
      var p: nat, g :| p <= |line| && ShapeAt(line, p, 0, g);
      SearchComplete(line, 0, p, g);
    }
  }

  /** The five groups of a match, in the order of the labels. */
  function Groups(id: Ident): (g: seq<string>)
    ensures |g| == 5
  {
    [id.name, id.devid, id.lnn, id.serno, id.extip]
  }

  /** What `re.search` found is a match: four tokens and a run of digits
      and dots. */
  lemma SearchGroups(line: string)
    requires SearchFrom(line, 0).Some?
    ensures var g := SearchFrom(line, 0).value;
      (forall i | 0 <= i < 4 :: IsToken(g[i])) && IsIpToken(g[4])
  {
    var g := SearchFrom(line, 0).value;
    var p := SearchSound(line, 0);
    ShapeGroups(line, p, 0, g);
  }

  /** The fields of a match are such a choice of groups, found at some start
      position: four tokens and a run of digits and dots. */
  lemma IdentityGroups(line: string)
    requires MatchIdentity(line).Some?
    ensures var id := MatchIdentity(line).value;
      && (exists p: nat :: p <= |line| && ShapeAt(line, p, 0, Groups(id)))
      && IsToken(id.name) && IsToken(id.devid) && IsToken(id.lnn) && IsToken(id.serno)
      && IsIpToken(id.extip)
  {
    var p := SearchSound(line, 0);
    GroupsOfMatch(line);
  }

  /** The match `re.search` returns from the start of `s`: the one at the
      leftmost start `p`, and there the longest first token after which the
      rest of the pattern can still follow. */
  lemma SearchChoice(s: string) returns (p: nat)
    requires SearchFrom(s, 0).Some?
    ensures var g := SearchFrom(s, 0).value;
      && p <= |s| && ShapeAt(s, p, 0, g)
      && (forall q: nat, g' | q < p :: !ShapeAt(s, q, 0, g'))
      && NoGapBetween(s, p + |Labels[0]| + |g[0]|, TokenEnd(s, p + |Labels[0]|), 1)
    ensures MatchFrom(s, p, 0) == SearchFrom(s, 0)
  {
    p := SearchSound(s, 0);
    var m := MatchFromLongest(s, p, 0, 1);
    var a := p + |Labels[0]|;
    var g := SearchFrom(s, 0).value;
    assert g[0] == s[a..m];
    assert a + |g[0]| == m;
  }

  /** Which of the possible matches is taken: the one at the leftmost start
      `p`, and there the longest NAME token after which the rest of the
      pattern can still follow; with the labels starting at `ps`, every
      group is the one the longest-token and shortest-gap rules choose. */
  lemma IdentityChoice(line: string) returns (p: nat, ps: seq<nat>)
    requires MatchIdentity(line).Some?
    ensures var id := MatchIdentity(line).value;
      && p <= |line| && ShapeAt(line, p, 0, Groups(id))
      && (forall q: nat, g | q < p :: !ShapeAt(line, q, 0, g))
      && NoGapBetween(line, p + |Labels[0]| + |id.name|, TokenEnd(line, p + |Labels[0]|), 1)
    ensures |ps| == 5 && ps[0] == p && ChosenAt(line, ps, 0, Groups(MatchIdentity(line).value))
  {
    p := SearchChoice(line);
    GroupsOfMatch(line);
    assert MatchFrom(line, p, 0) == SearchFrom(line, 0);
    ps := MatchChosen(line, p, 0);
  }

  /** The fields of a match are determined: any choice of groups that the
      longest-token and shortest-gap rules make at the leftmost start where
      the pattern occurs is exactly what `re.search` returns. */
  lemma IdentityDetermined(line: string, ps: seq<nat>, g: seq<string>)
    requires |ps| == 5 && ps[0] <= |line| && ChosenAt(line, ps, 0, g)
    requires forall q: nat, g' | q < ps[0] :: !ShapeAt(line, q, 0, g')
    ensures MatchIdentity(line).Some? && Groups(MatchIdentity(line).value) == g
  {
    ChosenShape(line, ps, 0, g);
    SearchComplete(line, 0, ps[0], g);
    var p0, ps0 := IdentityChoice(line);
    assert ps[0] == p0;
    ChosenUnique(line, ps, ps0, 0, g, Groups(MatchIdentity(line).value));
  }

  lemma GroupsOfMatch(line: string)
    requires MatchIdentity(line).Some?
    ensures Groups(MatchIdentity(line).value) == SearchFrom(line, 0).value
  {
  }
}
