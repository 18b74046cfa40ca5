/** The string operations of Python that the reporting pipeline relies on,
    written out over `seq<char>` for ASCII text: whitespace classes, `strip`,
    `rstrip(c)`, `lower`, `in`, `startswith`, `split` and `<=` on `str`. */
module Text {
  import opened Wrappers

  /** Python's `str.isspace` (which is also what `\s` matches in `re`),
      restricted to ASCII: tab, line feed, vertical tab, form feed, carriage
      return, the separators 0x1C to 0x1F and the space. */
  predicate IsSpace(c: char) {
    var n := c as int;
    (9 <= n <= 13) || (28 <= n <= 32)
  }

  predicate IsDigit(c: char) {
    '0' <= c <= '9'
  }

  predicate AllSpace(s: string) {
    forall i | 0 <= i < |s| :: IsSpace(s[i])
  }

  /** A non-empty run of non-whitespace characters, what `\S+` matches. */
  predicate IsToken(s: string) {
    |s| > 0 && forall i | 0 <= i < |s| :: !IsSpace(s[i])
  }

  predicate StartsWith(s: string, prefix: string) {
    |prefix| <= |s| && s[..|prefix|] == prefix
  }

  predicate OccursAt(s: string, pat: string, i: nat) {
    i + |pat| <= |s| && s[i..i + |pat|] == pat
  }

  /** Index of the first occurrence of `pat` in `s` at or after `from`. */
  function FindFrom(s: string, pat: string, from: nat): (r: Option<nat>)
    decreases |s| - from
    ensures r.Some? ==> from <= r.value && OccursAt(s, pat, r.value)
    ensures r.Some? ==> forall j :: from <= j < r.value ==> !OccursAt(s, pat, j)
    ensures r.None? ==> forall j :: from <= j ==> !OccursAt(s, pat, j)
  {
    if from + |pat| > |s| then None
    else if s[from..from + |pat|] == pat then Some(from)
    else FindFrom(s, pat, from + 1)
  }

  /** Python's `pat in s`. */
  predicate Contains(s: string, pat: string) {
    FindFrom(s, pat, 0).Some?
  }

  lemma ContainsIff(s: string, pat: string)
    ensures Contains(s, pat) <==> exists i: nat :: OccursAt(s, pat, i)
  {
    if !Contains(s, pat) {
      assert forall j :: 0 <= j ==> !OccursAt(s, pat, j);
    }
  }

  /** An occurrence inside a prefix of `s` is an occurrence in `s`. */
  lemma ContainsOfPrefix(s: string, n: nat, pat: string)
    requires n <= |s|
    requires Contains(s[..n], pat)
    ensures Contains(s, pat)
  {
    ContainsIff(s[..n], pat);
    var i: nat :| OccursAt(s[..n], pat, i);
    assert s[i..i + |pat|] == s[..n][i..i + |pat|];
    assert OccursAt(s, pat, i);
    ContainsIff(s, pat);
  }

  /** Index of the first `c` in `s`. */
  function IndexOf(s: string, c: char): (r: Option<nat>)
    ensures r.Some? ==> r.value < |s| && s[r.value] == c && c !in s[..r.value]
    ensures r.None? ==> c !in s
  {
    if |s| == 0 then None
    else if s[0] == c then Some(0)
    else match IndexOf(s[1..], c)
      case None => None
      case Some(k) => assert s[..k + 1] == [s[0]] + s[1..][..k]; Some(k + 1)
  }

  predicate AllSpaceIn(s: string, i: nat, j: nat) {
    i <= j <= |s| && forall t | i <= t < j :: IsSpace(s[t])
  }

  predicate NoSpaceIn(s: string, i: nat, j: nat) {
    i <= j <= |s| && forall t | i <= t < j :: !IsSpace(s[t])
  }

  /** End of the longest run of non-space characters from `i`. */
  function TokenEnd(s: string, i: nat): (e: nat)
    requires i <= |s|
    decreases |s| - i
    ensures NoSpaceIn(s, i, e) && (e == |s| || IsSpace(s[e]))
  {
    if i < |s| && !IsSpace(s[i]) then TokenEnd(s, i + 1) else i
  }

  /** End of the longest run of whitespace from `i`. */
  function SpaceEnd(s: string, i: nat): (e: nat)
    requires i <= |s|
    decreases |s| - i
    ensures AllSpaceIn(s, i, e) && (e == |s| || !IsSpace(s[e]))
  {
    if i < |s| && IsSpace(s[i]) then SpaceEnd(s, i + 1) else i
  }

  /** Going back from `j`, but not below `lo`, the first index after which
      only whitespace remains. */
  function BackSpace(s: string, lo: nat, j: nat): (e: nat)
    requires lo <= j <= |s|
    ensures lo <= e <= j
    ensures forall t | e <= t < j :: IsSpace(s[t])
    ensures e == lo || !IsSpace(s[e - 1])
  {
    if j > lo && IsSpace(s[j - 1]) then BackSpace(s, lo, j - 1) else j
  }

  /** Python's `str.strip()`: the result is empty exactly when `s` is all
      whitespace, and otherwise begins and ends with a non-space character. */
  function Strip(s: string): (r: string)
    ensures |r| <= |s|
    ensures r == [] <==> AllSpace(s)
    ensures r != [] ==> !IsSpace(r[0]) && !IsSpace(r[|r| - 1])
  {
    var a := SpaceEnd(s, 0);
    var b := BackSpace(s, a, |s|);
    s[a..b]
  }

  /** What `strip` keeps: the slice `s[a..b]` between a leading and a
      trailing run of whitespace, both as long as they can be. */
  lemma StripRange(s: string) returns (a: nat, b: nat)
    ensures a <= b <= |s| && Strip(s) == s[a..b]
    ensures AllSpaceIn(s, 0, a) && AllSpaceIn(s, b, |s|)
    ensures a < b ==> !IsSpace(s[a]) && !IsSpace(s[b - 1])
  {
    a := SpaceEnd(s, 0);
    b := BackSpace(s, a, |s|);
  }

  /** `IndexOf` finds the first occurrence of `c`. */
  lemma {:induction false} IndexOfFirst(s: string, c: char, k: nat)
    requires k < |s| && s[k] == c && c !in s[..k]
    ensures IndexOf(s, c) == Some(k)
  {
    if k > 0 {
      assert s[0] == s[..k][0];
      assert s[1..][k - 1] == c;
      assert s[1..][..k - 1] == s[..k][1..];
      IndexOfFirst(s[1..], c, k - 1);
    }
  }

  /** A string that neither begins nor ends with whitespace is left alone. */
  lemma StripNoOuterSpace(s: string)
    requires s != [] ==> !IsSpace(s[0]) && !IsSpace(s[|s| - 1])
    ensures Strip(s) == s
  {
  }

  /** Python's `s.rstrip(c)` for a single character `c`. */
  function TrimRightChar(s: string, c: char): (r: string)
    ensures |r| <= |s| && r == s[..|r|]
    ensures forall i | |r| <= i < |s| :: s[i] == c
    ensures r == [] || r[|r| - 1] != c
  {
    if |s| > 0 && s[|s| - 1] == c then TrimRightChar(s[..|s| - 1], c) else s
  }

  /** Python's `str.lower()` on ASCII letters. */
  function LowerChar(c: char): char {
    if 'A' <= c <= 'Z' then (c as int + 32) as char else c
  }

  function Lower(s: string): (r: string)
    ensures |r| == |s|
    ensures forall i | 0 <= i < |s| :: r[i] == LowerChar(s[i])
  {
    seq(|s|, i requires 0 <= i < |s| => LowerChar(s[i]))
  }

  /** `sep.join(parts)`. */
  function JoinWith(parts: seq<string>, sep: string): string {
    if |parts| == 0 then ""
    else if |parts| == 1 then parts[0]
    else parts[0] + sep + JoinWith(parts[1..], sep)
  }

  /** Python's `s.split(sep)` for a one-character separator: never empty, and
      no piece holds the separator. */
  function Split(s: string, sep: char): (parts: seq<string>)
    decreases |s|
    ensures |parts| >= 1
    ensures forall k | 0 <= k < |parts| :: sep !in parts[k]
  {
    match IndexOf(s, sep)
    case None => [s]
    case Some(k) => [s[..k]] + Split(s[k + 1..], sep)
  }

  /** Joining the pieces of a split with the separator gives back the string. */
  lemma {:induction false} JoinSplit(s: string, sep: char)
    decreases |s|
    ensures JoinWith(Split(s, sep), [sep]) == s
  {
    match IndexOf(s, sep)
    case None =>
    case Some(k) =>
      var rest := Split(s[k + 1..], sep);
      JoinSplit(s[k + 1..], sep);
      assert Split(s, sep) == [s[..k]] + rest;
      assert ([s[..k]] + rest)[1..] == rest;
      assert s == s[..k] + [sep] + s[k + 1..];
  }

  /** Splitting pieces joined by a separator none of them holds gives the
      pieces back. */
  lemma {:induction false} SplitJoin(parts: seq<string>, sep: char)
    requires |parts| >= 1
    requires forall k | 0 <= k < |parts| :: sep !in parts[k]
    ensures Split(JoinWith(parts, [sep]), sep) == parts
  {
    if |parts| == 1 {
      assert IndexOf(parts[0], sep).None?;
    } else {
      var s := JoinWith(parts, [sep]);
      var n := |parts[0]|;
      var tail := JoinWith(parts[1..], [sep]);
      assert s == parts[0] + [sep] + tail;
      assert s[n] == sep && s[..n] == parts[0] && s[n + 1..] == tail;
      assert IndexOf(s, sep) == Some(n);
      SplitJoin(parts[1..], sep);
      assert Split(s, sep) == [parts[0]] + parts[1..];
    }
  }

  /** The total length of some strings. */
  function TotalLength(parts: seq<string>): nat {
    if parts == [] then 0 else |parts[0]| + TotalLength(parts[1..])
  }

  /** `sep.join(parts)` holds the pieces and a separator between each two. */
  lemma {:induction false} JoinLength(parts: seq<string>, sep: string)
    requires |parts| >= 1
    ensures |JoinWith(parts, sep)| == TotalLength(parts) + |sep| * (|parts| - 1)
  {
    if |parts| > 1 {
      JoinLength(parts[1..], sep);
    }
  }

  /** A character in neither the pieces nor the separator is not in the join. */
  lemma {:induction false} JoinLacks(parts: seq<string>, sep: string, c: char)
    requires c !in sep && forall k | 0 <= k < |parts| :: c !in parts[k]
    ensures c !in JoinWith(parts, sep)
  {
    if |parts| > 1 {
      JoinLacks(parts[1..], sep, c);
    }
  }

  /** Cutting the pieces at `i`: the join of those before, a separator,
      and the join of the rest. */
  lemma {:induction false} JoinCut(parts: seq<string>, sep: string, i: nat)
    requires 0 < i < |parts|
    ensures JoinWith(parts, sep) == JoinWith(parts[..i], sep) + sep + JoinWith(parts[i..], sep)
  {
    var tail := parts[1..];
    assert parts[..i][0] == parts[0];
    if i == 1 {
      assert tail == parts[i..];
    } else {
      JoinCut(tail, sep, i - 1);
      assert parts[..i][1..] == tail[..i - 1];
      assert tail[i - 1..] == parts[i..];
      var a, b, c := parts[0], JoinWith(tail[..i - 1], sep), JoinWith(parts[i..], sep);
      assert a + sep + (b + sep + c) == (a + sep + b) + sep + c;
    }
  }

  /** `sep.join(parts)` starts with the first piece, then a separator when
      more pieces follow. */
  lemma JoinHead(parts: seq<string>, sep: string)
    requires |parts| >= 1
    ensures var s := JoinWith(parts, sep);
      && |parts[0]| <= |s| && s[..|parts[0]|] == parts[0]
      && (|parts| > 1 ==> |parts[0]| + |sep| <= |s| && s[|parts[0]|..|parts[0]| + |sep|] == sep)
  {
    if |parts| > 1 {
      var s := JoinWith(parts, sep);
      var tail := JoinWith(parts[1..], sep);
      assert s == parts[0] + sep + tail;
      assert s[..|parts[0]|] == parts[0];
      assert s[|parts[0]|..|parts[0]| + |sep|] == sep;
    }
  }

  /** A slice of the right part of a concatenation. */
  lemma SliceRight(x: string, y: string, m: nat, n: nat)
    requires m <= n <= |y|
    ensures (x + y)[|x| + m..|x| + n] == y[m..n]
  {
  }

  /** In `sep.join(parts)`, piece `i` starts at `off`, after the pieces
      before it and one separator after each of them, and a separator
      follows it unless it is the last. */
  lemma JoinAt(parts: seq<string>, sep: string, i: nat) returns (off: nat)
    requires i < |parts|
    ensures off == TotalLength(parts[..i]) + |sep| * i
    ensures off + |parts[i]| <= |JoinWith(parts, sep)|
    ensures JoinWith(parts, sep)[off..off + |parts[i]|] == parts[i]
    ensures i + 1 < |parts| ==> off + |parts[i]| + |sep| <= |JoinWith(parts, sep)|
    ensures i + 1 < |parts| ==> JoinWith(parts, sep)[off + |parts[i]|..off + |parts[i]| + |sep|] == sep
  {
    if i == 0 {
      JoinHead(parts, sep);
      assert parts[..0] == [];
      off := 0;
    } else {
      var front := JoinWith(parts[..i], sep);
      var back := JoinWith(parts[i..], sep);
      JoinCut(parts, sep, i);
      JoinLength(parts[..i], sep);
      JoinHead(parts[i..], sep);
      assert |sep| * i == |sep| * (i - 1) + |sep| by {
        assert |sep| * i == |sep| * ((i - 1) + 1);
      }
      assert parts[i..][0] == parts[i];
      off := PieceAt(JoinWith(parts, sep), front, sep, back, parts[i], i + 1 < |parts|);
    }
  }

  /** Where a piece lies in a string made of a front, a separator and a back
      that starts with the piece (and a separator, when `more`). */
  lemma PieceAt(s: string, front: string, sep: string, back: string, piece: string, more: bool) returns (off: nat)
    requires s == front + sep + back
    requires |piece| <= |back| && back[..|piece|] == piece
    requires more ==> |piece| + |sep| <= |back| && back[|piece|..|piece| + |sep|] == sep
    ensures off == |front| + |sep|
    ensures off + |piece| <= |s| && s[off..off + |piece|] == piece
    ensures more ==> off + |piece| + |sep| <= |s| && s[off + |piece|..off + |piece| + |sep|] == sep
  {
    off := |front| + |sep|;
    SliceRight(front + sep, back, 0, |piece|);
    if more {
      SliceRight(front + sep, back, |piece|, |piece| + |sep|);
    }
  }

  /** Python's `<=` on `str`: lexicographic by code point, a prefix first. */
  predicate LexLe(a: string, b: string) {
    |a| == 0 || (|b| > 0 && (a[0] < b[0] || (a[0] == b[0] && LexLe(a[1..], b[1..]))))
  }

  lemma {:induction false} LexLeRefl(a: string)
    ensures LexLe(a, a)
  {
    if |a| > 0 { LexLeRefl(a[1..]); }
  }

  lemma {:induction false} LexLeTotal(a: string, b: string)
    ensures LexLe(a, b) || LexLe(b, a)
  {
    if |a| > 0 && |b| > 0 && a[0] == b[0] { LexLeTotal(a[1..], b[1..]); }
  }

  lemma {:induction false} LexLeTrans(a: string, b: string, c: string)
    requires LexLe(a, b) && LexLe(b, c)
    ensures LexLe(a, c)
  {
    if |a| > 0 && |b| > 0 && |c| > 0 && a[0] == b[0] == c[0] {
      LexLeTrans(a[1..], b[1..], c[1..]);
    }
  }

  lemma {:induction false} LexLeAntisym(a: string, b: string)
    requires LexLe(a, b) && LexLe(b, a)
    ensures a == b
  {
    if |a| > 0 && |b| > 0 {
      LexLeAntisym(a[1..], b[1..]);
      assert a == [a[0]] + a[1..];
      assert b == [b[0]] + b[1..];
    }
  }
}
