/** The node-set resolver `parse_nodes_spec`: a comma list of node ids and
    inclusive ranges `a-b` becomes the ascending list of distinct ids. */
module NodeSpec {
  import opened Wrappers
  import opened Text

  /** The ValueError that `int()` raises, with the text it was handed. */
  datatype ParseError = InvalidLiteral(text: string)

  /** What one comma-separated piece of the list stands for. */
  datatype Part = Skip | Single(node: int) | Span(lo: int, hi: int)

  function PartNodes(p: Part): set<int> {
    match p
    case Skip => {}
    case Single(n) => {n}
    case Span(lo, hi) => Interval(lo, hi)
  }

  /** `range(lo, hi + 1)` as a set: the integers from lo to hi inclusive. */
  function Interval(lo: int, hi: int): (r: set<int>)
    ensures forall x :: x in r <==> lo <= x <= hi
    decreases hi - lo
  {
    if lo > hi then {} else {lo} + Interval(lo + 1, hi)
  }

  predicate AllDigits(d: string) {
    forall i | 0 <= i < |d| :: IsDigit(d[i])
  }

  function DigitValue(c: char): nat
    requires IsDigit(c)
  {
    c as int - '0' as int
  }

  /** The value of a string of decimal digits, most significant digit first. */
  function DecimalValue(d: string): nat
    requires AllDigits(d)
  {
    if d == [] then 0 else DecimalValue(d[..|d| - 1]) * 10 + DigitValue(d[|d| - 1])
  }

  /** The digit part that `int()` accepts in base 10: decimal digits, with
      single underscores allowed between two digits. */
  predicate WellFormedDigits(d: string) {
    && |d| > 0 && IsDigit(d[0]) && IsDigit(d[|d| - 1])
    && (forall i | 0 <= i < |d| :: IsDigit(d[i]) || d[i] == '_')
    && (forall i | 0 <= i < |d| - 1 :: !(d[i] == '_' && d[i + 1] == '_'))
  }

  function DropUnderscores(d: string): (r: string)
    ensures (forall i | 0 <= i < |d| :: IsDigit(d[i]) || d[i] == '_') ==> AllDigits(r)
    ensures AllDigits(d) ==> r == d
  {
    if d == [] then [] else (if d[0] == '_' then [] else [d[0]]) + DropUnderscores(d[1..])
  }

  function UnsignedValue(d: string): Option<nat> {
    if WellFormedDigits(d) then Some(DecimalValue(DropUnderscores(d))) else None
  }

  /** The whitespace `int()` skips around its digits: the C library's
      `isspace` in the C locale, tab to carriage return and the space. The
      separators 0x1C to 0x1F, which `str.strip` removes, are not part of
      it. */
  predicate IsIntSpace(c: char) {
    var n := c as int;
    (9 <= n <= 13) || n == 32
  }

  predicate AllIntSpaceIn(s: string, i: nat, j: nat) {
    i <= j <= |s| && forall t | i <= t < j :: IsIntSpace(s[t])
  }

  /** End of the longest run of `int()` whitespace from `i`. */
  function IntSpaceEnd(s: string, i: nat): (e: nat)
    requires i <= |s|
    decreases |s| - i
    ensures AllIntSpaceIn(s, i, e) && (e == |s| || !IsIntSpace(s[e]))
  {
    if i < |s| && IsIntSpace(s[i]) then IntSpaceEnd(s, i + 1) else i
  }

  /** Going back from `j`, but not below `lo`, the first index after which
      only `int()` whitespace remains. */
  function IntBackSpace(s: string, lo: nat, j: nat): (e: nat)
    requires lo <= j <= |s|
    ensures lo <= e <= j && AllIntSpaceIn(s, e, j)
    ensures e == lo || !IsIntSpace(s[e - 1])
  {
    if j > lo && IsIntSpace(s[j - 1]) then IntBackSpace(s, lo, j - 1) else j
  }

  /** The text `int()` reads: `text` without its leading and trailing runs
      of `int()` whitespace, both as long as they can be. */
  function IntStrip(text: string): (r: string)
    ensures |r| <= |text|
    ensures r == [] <==> AllIntSpaceIn(text, 0, |text|)
    ensures r != [] ==> !IsIntSpace(r[0]) && !IsIntSpace(r[|r| - 1])
  {
    var a := IntSpaceEnd(text, 0);
    var b := IntBackSpace(text, a, |text|);
    text[a..b]
  }

  /** What `IntStrip` keeps: the slice `text[a..b]` between a leading and a
      trailing run of `int()` whitespace, both as long as they can be. */
  lemma IntStripRange(text: string) returns (a: nat, b: nat)
    ensures a <= b <= |text| && IntStrip(text) == text[a..b]
    ensures AllIntSpaceIn(text, 0, a) && AllIntSpaceIn(text, b, |text|)
    ensures a < b ==> !IsIntSpace(text[a]) && !IsIntSpace(text[b - 1])
  {
    a := IntSpaceEnd(text, 0);
    b := IntBackSpace(text, a, |text|);
  }

  /** A text that neither begins nor ends with `int()` whitespace is read
      as it is. */
  lemma IntStripNoOuterSpace(text: string)
    requires text != [] ==> !IsIntSpace(text[0]) && !IsIntSpace(text[|text| - 1])
    ensures IntStrip(text) == text
  {
  }

  /** Python's `int(text)`: surrounding whitespace (of the C locale) is
      ignored, then an optional sign and the digits. A blank text is
      rejected. */
  function ParseInt(text: string): (r: Option<int>)
    ensures AllSpace(text) ==> r == None
  {
    var t := IntStrip(text);
    assert t != [] && AllSpace(text) ==> IsSpace(t[0]) by {
      if t != [] && AllSpace(text) {
        var a, b := IntStripRange(text);
        assert t[0] == text[a];
      }
    }
    if |t| > 0 && (t[0] == '+' || t[0] == '-') then
      match UnsignedValue(t[1..])
      case None => None
      case Some(v) => Some(if t[0] == '-' then -(v as int) else v)
    else
      match UnsignedValue(t)
      case None => None
      case Some(v) => Some(v)
  }

  predicate IsSign(c: char) {
    c == '+' || c == '-'
  }

  /** What `int()` accepts: after `IntStrip`, the digits alone or one sign
      followed by the digits; the value is that of the digits with the
      underscores dropped, negated after a minus sign. */
  lemma ParseIntMeaning(text: string)
    ensures var t := IntStrip(text);
      ParseInt(text).Some? <==> WellFormedDigits(t) || (|t| > 0 && IsSign(t[0]) && WellFormedDigits(t[1..]))
    ensures var t := IntStrip(text);
      WellFormedDigits(t) ==> ParseInt(text) == Some(DecimalValue(DropUnderscores(t)))
    ensures var t := IntStrip(text);
      |t| > 0 && t[0] == '+' && WellFormedDigits(t[1..]) ==>
        ParseInt(text) == Some(DecimalValue(DropUnderscores(t[1..])))
    ensures var t := IntStrip(text);
      |t| > 0 && t[0] == '-' && WellFormedDigits(t[1..]) ==>
        ParseInt(text) == Some(-(DecimalValue(DropUnderscores(t[1..])) as int))
  {
    var t := IntStrip(text);
    if |t| > 0 && IsSign(t[0]) {
      assert !WellFormedDigits(t);
      var u := UnsignedValue(t[1..]);
      assert u.Some? <==> WellFormedDigits(t[1..]);
    } else {
      assert UnsignedValue(t).Some? <==> WellFormedDigits(t);
    }
  }

  /** A character other than a digit, an underscore or a leading sign in the
      text `IntStrip` keeps makes `int()` fail. */
  lemma ParseIntRejects(text: string, i: nat)
    requires i < |IntStrip(text)|
    requires var c := IntStrip(text)[i]; !IsDigit(c) && c != '_' && !(i == 0 && IsSign(c))
    ensures ParseInt(text) == None
  {
    var t := IntStrip(text);
    if i > 0 && |t| > 0 && IsSign(t[0]) {
      assert t[1..][i - 1] == t[i];
    }
  }

  /** Unlike `str.strip`, `int()` does not skip the separators 0x1C to
      0x1F: one anywhere in the text makes it fail. */
  lemma ParseIntRejectsSeparator(text: string, i: nat)
    requires i < |text| && 28 <= text[i] as int <= 31
    ensures ParseInt(text) == None
  {
    var a, b := IntStripRange(text);
    assert !IsIntSpace(text[i]);
    assert a <= i < b;
    assert IntStrip(text)[i - a] == text[i];
    ParseIntRejects(text, i - a);
  }

  /** So the piece `1`, 0x1C, `-3` is an error: `strip` leaves the
      separator inside the piece, and `int()` refuses the half `1`, 0x1C. */
  lemma SeparatorInRange()
    ensures ParsePart(['1', 28 as char, '-', '3']) == Err(InvalidLiteral(['1', 28 as char]))
  {
    var s := ['1', 28 as char, '-', '3'];
    StripNoOuterSpace(s);
    IndexOfFirst(s, '-', 2);
    assert s[..2] == ['1', 28 as char];
    ParseIntRejectsSeparator(s[..2], 1);
  }

  function DigitChar(d: nat): char
    requires d < 10
  {
    ('0' as int + d) as char
  }

  /** The decimal rendering of a natural number, as `str(n)` writes it. */
  function NatToString(n: nat): (r: string)
    ensures |r| > 0 && AllDigits(r)
  {
    if n < 10 then [DigitChar(n)] else NatToString(n / 10) + [DigitChar(n % 10)]
  }

  lemma {:induction false} DecimalValueOfNatToString(n: nat)
    ensures DecimalValue(NatToString(n)) == n
  {
    if n >= 10 {
      var s := NatToString(n);
      assert s[..|s| - 1] == NatToString(n / 10);
      DecimalValueOfNatToString(n / 10);
    }
  }

  lemma UnsignedValueOfNatToString(n: nat)
    ensures UnsignedValue(NatToString(n)) == Some(n)
  {
    var s := NatToString(n);
    DecimalValueOfNatToString(n);
    assert DropUnderscores(s) == s;
    assert WellFormedDigits(s) by {
      assert forall i | 0 <= i < |s| :: IsDigit(s[i]);
    }
  }

  /** `int()` reads back what `str()` writes, with or without a minus sign. */
  lemma ParseIntOfNatToString(n: nat)
    ensures ParseInt(NatToString(n)) == Some(n)
    ensures ParseInt("-" + NatToString(n)) == Some(-(n as int))
  {
    var s := NatToString(n);
    UnsignedValueOfNatToString(n);
    ParseIntOfDigits(s, n);
    ParseIntOfNegatedDigits(s, n);
  }

  lemma ParseIntOfDigits(s: string, n: nat)
    requires |s| > 0 && AllDigits(s) && UnsignedValue(s) == Some(n)
    ensures ParseInt(s) == Some(n)
  {
    assert IsDigit(s[0]) && IsDigit(s[|s| - 1]);
    IntStripNoOuterSpace(s);
  }

  lemma ParseIntOfNegatedDigits(s: string, n: nat)
    requires |s| > 0 && AllDigits(s) && UnsignedValue(s) == Some(n)
    ensures ParseInt("-" + s) == Some(-(n as int))
  {
    var m := "-" + s;
    assert IsDigit(m[|m| - 1]);
    IntStripNoOuterSpace(m);
    assert m[1..] == s;
  }

  /** One comma-separated piece, as the body of the loop in parse_nodes_spec
      treats it: a blank piece is skipped, a piece holding `-` is split at the
      first `-` into two integers that are put in order, anything else must be
      a single integer. A range is never empty. */
  function ParsePart(piece: string): (r: Result<Part, ParseError>)
    ensures r == Ok(Skip) <==> AllSpace(piece)
    ensures r.Ok? && r.value.Span? ==> r.value.lo <= r.value.hi
  {
    var part := Strip(piece);
    if part == [] then Ok(Skip)
    else match IndexOf(part, '-')
      case Some(k) =>
        var a, b := part[..k], part[k + 1..];
        (match ParseInt(a)
         case None => Err(InvalidLiteral(a))
         case Some(x) =>
           match ParseInt(b)
           case None => Err(InvalidLiteral(b))
           case Some(y) => if x > y then Ok(Span(y, x)) else Ok(Span(x, y)))
      case None =>
        match ParseInt(part)
        case None => Err(InvalidLiteral(part))
        case Some(n) => Ok(Single(n))
  }

  /** A piece without `-` is a single integer, and one `int()` rejects is
      reported with the stripped piece. */
  lemma ParsePartSingle(piece: string)
    requires Strip(piece) != [] && '-' !in Strip(piece)
    ensures var part := Strip(piece);
      ParsePart(piece) == match ParseInt(part)
        case Some(n) => Ok(Single(n))
        case None => Err(InvalidLiteral(part))
  {
  }

  /** A piece whose first `-` is at `k` is a range: both halves must be
      integers, the first bad half is reported, and the bounds are put in
      order. */
  lemma ParsePartRange(piece: string, k: nat)
    requires var part := Strip(piece); k < |part| && part[k] == '-' && '-' !in part[..k]
    ensures var part := Strip(piece);
      var x, y := ParseInt(part[..k]), ParseInt(part[k + 1..]);
      && (x.None? ==> ParsePart(piece) == Err(InvalidLiteral(part[..k])))
      && (x.Some? && y.None? ==> ParsePart(piece) == Err(InvalidLiteral(part[k + 1..])))
      && (x.Some? && y.Some? ==>
            ParsePart(piece) == Ok(Span(Min(x.value, y.value), Max(x.value, y.value))))
  {
    var part := Strip(piece);
    IndexOfFirst(part, '-', k);
  }

  /** Every error names a text that `int()` rejects, and every node a piece
      stands for is the value of an integer literal in it. */
  lemma ParsePartErrors(piece: string)
    ensures ParsePart(piece).Err? ==> ParseInt(ParsePart(piece).error.text).None?
    ensures ParsePart(piece).Ok? && ParsePart(piece).value.Single? ==>
      '-' !in Strip(piece) && ParseInt(Strip(piece)) == Some(ParsePart(piece).value.node)
  {
    var part := Strip(piece);
    if part != [] {
      match IndexOf(part, '-')
      case Some(k) =>
        ParsePartRange(piece, k);
      case None =>
        ParsePartSingle(piece);
    }
  }

  function Min(x: int, y: int): int {
    if x <= y then x else y
  }

  function Max(x: int, y: int): int {
    if x <= y then y else x
  }

  /** The outcome of resolving each piece on its own. */
  function ParseParts(parts: seq<string>): (rs: seq<Result<Part, ParseError>>)
    ensures |rs| == |parts|
    ensures forall j | 0 <= j < |parts| :: rs[j] == ParsePart(parts[j])
  {
    seq(|parts|, j requires 0 <= j < |parts| => ParsePart(parts[j]))
  }

  /** What the loop of parse_nodes_spec accumulates over resolved pieces: the
      union of their nodes, or the error of the first one that failed. */
  function Collect(rs: seq<Result<Part, ParseError>>): Result<set<int>, ParseError> {
    if rs == [] then Ok({})
    else match Collect(rs[..|rs| - 1])
      case Err(e) => Err(e)
      case Ok(nodes) =>
        match rs[|rs| - 1]
        case Err(e) => Err(e)
        case Ok(p) => Ok(nodes + PartNodes(p))
  }

  /** The node set of a list of pieces. */
  function NodeSet(parts: seq<string>): (r: Result<set<int>, ParseError>)
    ensures r.Ok? <==> forall j | 0 <= j < |parts| :: ParsePart(parts[j]).Ok?
  {
    CollectOkIff(ParseParts(parts));
    Collect(ParseParts(parts))
  }

  lemma {:induction false} CollectOkIff(rs: seq<Result<Part, ParseError>>)
    ensures Collect(rs).Ok? <==> forall j | 0 <= j < |rs| :: rs[j].Ok?
  {
    if rs != [] {
      var init := rs[..|rs| - 1];
      CollectOkIff(init);
      assert forall j | 0 <= j < |init| :: init[j] == rs[j];
    }
  }

  lemma {:induction false} CollectMembers(rs: seq<Result<Part, ParseError>>, n: int)
    requires Collect(rs).Ok?
    ensures n in Collect(rs).value <==> exists j :: 0 <= j < |rs| && rs[j].Ok? && n in PartNodes(rs[j].value)
  {
    if rs != [] {
      var init := rs[..|rs| - 1];
      var last := |rs| - 1;
      CollectMembers(init, n);
      assert forall j | 0 <= j < |init| :: init[j] == rs[j];
      if n in PartNodes(rs[last].value) {
        assert rs[last].Ok? && n in PartNodes(rs[last].value);
      }
    }
  }

  lemma {:induction false} CollectFirstError(rs: seq<Result<Part, ParseError>>)
    requires Collect(rs).Err?
    ensures exists j :: 0 <= j < |rs| && rs[j] == Err(Collect(rs).error) && forall i | 0 <= i < j :: rs[i].Ok?
  {
    var init := rs[..|rs| - 1];
    var last := |rs| - 1;
    assert forall j | 0 <= j < |init| :: init[j] == rs[j];
    if Collect(init).Err? {
      CollectFirstError(init);
      var j :| 0 <= j < |init| && init[j] == Err(Collect(init).error) && forall i | 0 <= i < j :: init[i].Ok?;
      assert rs[j] == Err(Collect(rs).error);
    } else {
      CollectOkIff(init);
      assert rs[last] == Err(Collect(rs).error);
    }
  }

  /** Once a prefix of the pieces fails, the whole list fails with its error. */
  lemma {:induction false} CollectPrefixError(rs: seq<Result<Part, ParseError>>, m: nat)
    requires m <= |rs| && Collect(rs[..m]).Err?
    ensures Collect(rs) == Collect(rs[..m])
    decreases |rs| - m
  {
    if m < |rs| {
      assert rs[..m + 1][..m] == rs[..m];
      CollectPrefixError(rs, m + 1);
    } else {
      assert rs[..m] == rs;
    }
  }

  /** The node set exists exactly when every piece parses; it then holds
      exactly the single ids and the ids of the inclusive ranges of the
      pieces (blank pieces add nothing); otherwise its error is that of the
      first piece that does not parse. */
  lemma NodeSetMeaning(parts: seq<string>)
    ensures NodeSet(parts).Ok? <==> forall j | 0 <= j < |parts| :: ParseParts(parts)[j].Ok?
    ensures NodeSet(parts).Ok? ==>
      forall n :: n in NodeSet(parts).value <==>
        exists j :: 0 <= j < |parts| && ParseParts(parts)[j].Ok? && n in PartNodes(ParseParts(parts)[j].value)
    ensures NodeSet(parts).Err? ==>
      exists j :: 0 <= j < |parts| && ParseParts(parts)[j] == Err(NodeSet(parts).error) &&
        forall i | 0 <= i < j :: ParseParts(parts)[i].Ok?
  {
    var rs := ParseParts(parts);
    CollectOkIff(rs);
    if Collect(rs).Ok? {
      forall n
        ensures n in Collect(rs).value <==> exists j :: 0 <= j < |rs| && rs[j].Ok? && n in PartNodes(rs[j].value)
      {
        CollectMembers(rs, n);
      }
    } else {
      CollectFirstError(rs);
    }
  }

  /** A range and the same range written the other way round stand for the
      same nodes: both parse to the span from the smaller to the larger end. */
  lemma ReversedRange(a: nat, b: nat)
    ensures ParsePart(NatToString(a) + "-" + NatToString(b)) == Ok(Span(if a <= b then a else b, if a <= b then b else a))
    ensures ParsePart(NatToString(a) + "-" + NatToString(b)) == ParsePart(NatToString(b) + "-" + NatToString(a))
  {
    RangePieceParses(a, b);
    RangePieceParses(b, a);
  }

  lemma RangePieceParses(a: nat, b: nat)
    ensures ParsePart(NatToString(a) + "-" + NatToString(b)) == Ok(Span(if a <= b then a else b, if a <= b then b else a))
  {
    ParseIntOfNatToString(a);
    ParseIntOfNatToString(b);
    RangeOfDigits(NatToString(a), NatToString(b), a, b);
  }

  lemma RangeOfDigits(sa: string, sb: string, a: int, b: int)
    requires |sa| > 0 && AllDigits(sa) && |sb| > 0 && AllDigits(sb)
    requires ParseInt(sa) == Some(a) && ParseInt(sb) == Some(b)
    ensures ParsePart(sa + "-" + sb) == Ok(Span(if a <= b then a else b, if a <= b then b else a))
  {
    var s := sa + "-" + sb;
    assert IsDigit(s[0]) && IsDigit(s[|s| - 1]);
    StripNoOuterSpace(s);
    assert s[..|sa|] == sa && s[|sa|] == '-' && s[|sa| + 1..] == sb;
    assert '-' !in sa;
    ParsePartRange(s, |sa|);
  }

  /** A negative single id is no id: the piece `-n` splits into an empty
      left half, which `int()` rejects. */
  lemma NegativeSingleRejected(n: nat)
    ensures ParsePart("-" + NatToString(n)) == Err(InvalidLiteral(""))
  {
    var s := "-" + NatToString(n);
    StripNoOuterSpace(s);
    assert IndexOf(s, '-') == Some(0);
    assert s[..0] == "";
  }

  predicate StrictlyAscending(s: seq<int>) {
    forall i, j | 0 <= i < j < |s| :: s[i] < s[j]
  }

  lemma HasElement(s: set<int>)
    requires s != {}
    ensures exists x :: x in s
  {
    if forall x :: x !in s {
      assert false;
    }
  }

  lemma {:induction false} HasLeast(s: set<int>)
    requires s != {}
    ensures exists m :: m in s && forall n | n in s :: m <= n
    decreases |s|
  {
    HasElement(s);
    var x :| x in s;
    if s != {x} {
      HasLeast(s - {x});
      var m :| m in s - {x} && forall n | n in s - {x} :: m <= n;
      assert forall n | n in s :: n == x || n in s - {x};
      if x < m {
        assert forall n | n in s :: x <= n;
      } else {
        assert forall n | n in s :: m <= n;
      }
    } else {
      assert forall n | n in s :: x <= n;
    }
  }

  /** `sorted(nodes)`: the elements of the set in strictly ascending order. */
  function SortedNodes(nodes: set<int>): (r: seq<int>)
    ensures StrictlyAscending(r)
    ensures forall n :: n in r <==> n in nodes
    decreases |nodes|
  {
    if nodes == {} then []
    else
      HasLeast(nodes);
      var m :| m in nodes && forall n | n in nodes :: m <= n;
      [m] + SortedNodes(nodes - {m})
  }

  lemma CollectStep(rs: seq<Result<Part, ParseError>>, i: nat, nodes: set<int>)
    requires i < |rs| && Collect(rs[..i]) == Ok(nodes)
    ensures rs[i].Ok? ==> Collect(rs[..i + 1]) == Ok(nodes + PartNodes(rs[i].value))
    ensures rs[i].Err? ==> Collect(rs) == Err(rs[i].error)
  {
    assert rs[..i + 1][..i] == rs[..i];
    if rs[i].Err? {
      CollectPrefixError(rs, i + 1);
    }
  }

  /** One pass of the loop of parse_nodes_spec: strip the piece, skip it
      when blank, otherwise read a range at its first dash (swapping reversed
      bounds) or a single node. */
  method ResolvePiece(piece: string) returns (p: Result<Part, ParseError>)
    ensures p == ParsePart(piece)
  {
    var part := Strip(piece);
    if part == [] {
      return Ok(Skip);
    }
    match IndexOf(part, '-') {
      case Some(k) =>
        var a := ParseInt(part[..k]);
        if a.None? {
          return Err(InvalidLiteral(part[..k]));
        }
        var b := ParseInt(part[k + 1..]);
        if b.None? {
          return Err(InvalidLiteral(part[k + 1..]));
        }
        var lo, hi := a.value, b.value;
        if lo > hi {
          lo, hi := hi, lo;
        }
        p := Ok(Span(lo, hi));
      case None =>
        var n := ParseInt(part);
        if n.None? {
          return Err(InvalidLiteral(part));
        }
        p := Ok(Single(n.value));
    }
  }

  /** parse_nodes_spec: split at commas, resolve each piece in order, stop at
      the first piece that does not parse, and return the collected nodes in
      ascending order. */
  method ParseNodesSpec(spec: string) returns (r: Result<seq<int>, ParseError>)
    ensures NodeSet(Split(spec, ',')).Err? ==> r == Err(NodeSet(Split(spec, ',')).error)
    ensures NodeSet(Split(spec, ',')).Ok? ==>
      r.Ok? && StrictlyAscending(r.value) &&
      forall n :: n in r.value <==> n in NodeSet(Split(spec, ',')).value
    ensures NodeSet(Split(spec, ',')).Ok? ==> r == Ok(SortedNodes(NodeSet(Split(spec, ',')).value))
  {
    var parts := Split(spec, ',');
    ghost var rs := ParseParts(parts);
    var nodes: set<int> := {};
    for i := 0 to |parts|
      invariant Collect(rs[..i]) == Ok(nodes)
    {
      CollectStep(rs, i, nodes);
      var p := ResolvePiece(parts[i]);
      if p.Err? {
        return Err(p.error);
      }
      nodes := nodes + PartNodes(p.value);
    }
    assert rs[..|parts|] == rs;
    return Ok(SortedNodes(nodes));
  }
}
