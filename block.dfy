/** `parse_block`: the record of one block of six scanned lines. Line 1 must
    match the identity pattern; lines 2 to 6 carry the chassis fields and the
    product, and are each expected to start with the node name and a colon. */
module Block {
  import opened Wrappers
  import opened Text
  import opened Identity

  /** The value of a field that nothing in the block supplied. */
  const NA: string := "n/a"

  /** The product shown for a block that could not be parsed. */
  const OutputError: string := "OUTPUT-ERROR"

  /** The chassis serial shown when the chassis serial is the node serial. */
  const SingleChassis: string := "SINGLE-CHASSIS"

  const ChsSerNLabel: string := "ChsSerN:"
  const ChsSlotLabel: string := "ChsSlot:"
  const ChsCodeLabel: string := "ChsCode:"
  const ProductLabel: string := "Product:"

  /** HEADER: the column names of the report, in column order. */
  const Header: seq<string> :=
    ["Product:", "NAME:", "DEVID:", "LNN:", "SERNO:", "ChsCode:", "ChsSerN:", "ChsSlot:", "EXT-IP:"]

  /** The record dictionary of `parse_block`, one field per column. */
  datatype Record = Record(
    product: string, name: string, devid: string, lnn: string, serno: string,
    chscode: string, chssern: string, chsslot: string, extip: string)

  /** The record `parse_block` starts from: every field "n/a". */
  const Blank: Record := Record(NA, NA, NA, NA, NA, NA, NA, NA, NA)

  /** The row of the table for a record: its fields in the order of the
      header, product first and the external address last. */
  function Cells(rec: Record): (row: seq<string>)
    ensures |row| == |Header|
    ensures row[0] == rec.product && row[1] == rec.name && row[2] == rec.devid
    ensures row[3] == rec.lnn && row[4] == rec.serno && row[5] == rec.chscode
    ensures row[6] == rec.chssern && row[7] == rec.chsslot && row[8] == rec.extip
  {
    [rec.product, rec.name, rec.devid, rec.lnn, rec.serno,
     rec.chscode, rec.chssern, rec.chsslot, rec.extip]
  }

  // ---------------------------------------------------------------------
  // `re.search(tag + r"\s*(\S+)", s)` for the three chassis labels.
  // ---------------------------------------------------------------------

  /** The pattern can match at an occurrence of `tag` at `i`: possibly
      some whitespace, then a non-space character. */
  ghost predicate LabelMatchAt(s: string, tag: string, i: nat) {
    OccursAt(s, tag, i) && exists w: nat :: AllSpaceIn(s, i + |tag|, w) && w < |s| && !IsSpace(s[w])
  }

  /** The group captured at the occurrence of `tag` at `i`: the whole run
      of non-space characters after the whitespace that follows the tag. */
  ghost predicate GroupAt(s: string, tag: string, i: nat, t: string) {
    OccursAt(s, tag, i) &&
    exists w: nat :: AllSpaceIn(s, i + |tag|, w) && IsToken(t) && OccursAt(s, t, w)
                     && (w + |t| == |s| || IsSpace(s[w + |t|]))
  }

  /** Whitespace from `a` up to a non-space character at `w`: the run of
      whitespace from `a` ends at `w`. */
  lemma {:induction false} SpaceEndAt(s: string, a: nat, w: nat)
    requires AllSpaceIn(s, a, w) && w < |s| && !IsSpace(s[w])
    ensures SpaceEnd(s, a) == w
    decreases w - a
  {
    if a < w {
      SpaceEndAt(s, a + 1, w);
    }
  }

  /** The leftmost position from `from` on where the pattern matches. */
  function FindLabel(s: string, tag: string, from: nat): (r: Option<nat>)
    decreases |s| - from
    ensures r.Some? ==> from <= r.value && OccursAt(s, tag, r.value)
    ensures r.Some? ==> SpaceEnd(s, r.value + |tag|) < |s|
  {
    match FindFrom(s, tag, from)
    case None => None
    case Some(i) =>
      if SpaceEnd(s, i + |tag|) < |s| then Some(i)
      else FindLabel(s, tag, i + 1)
  }

  /** FindLabel finds the leftmost match, and none when there is none. */
  lemma {:induction false} FindLabelLeftmost(s: string, tag: string, from: nat)
    decreases |s| - from
    ensures var r := FindLabel(s, tag, from);
      && (r.Some? ==> LabelMatchAt(s, tag, r.value))
      && (forall j: nat | from <= j && (r.None? || j < r.value) :: !LabelMatchAt(s, tag, j))
  {
    var r := FindLabel(s, tag, from);
    match FindFrom(s, tag, from)
    case None =>
      NoMatchWithout(s, tag, from);
    case Some(i) =>
      var a := i + |tag|;
      var e := SpaceEnd(s, a);
      forall j: nat | from <= j < i ensures !LabelMatchAt(s, tag, j) {
      }
      if e < |s| {
        assert AllSpaceIn(s, a, e) && e < |s| && !IsSpace(s[e]);
      } else {
        FindLabelLeftmost(s, tag, i + 1);
      }
  }

  lemma NoMatchWithout(s: string, tag: string, from: nat)
    requires FindFrom(s, tag, from).None?
    ensures forall j: nat | from <= j :: !LabelMatchAt(s, tag, j)
  {
  }

  /** Group 1 of `re.search(tag + r"\s*(\S+)", s)`. */
  function LabelToken(s: string, tag: string): (r: Option<string>)
    ensures r.Some? ==> IsToken(r.value)
    ensures !Contains(s, tag) ==> r.None?
  {
    ContainsIff(s, tag);
    var found := FindLabel(s, tag, 0);
    if found.None? then None
    else
      var w := SpaceEnd(s, found.value + |tag|);
      Some(s[w..TokenEnd(s, w)])
  }

  /** The token is found exactly when the pattern can match somewhere. */
  lemma LabelTokenFound(s: string, tag: string)
    ensures LabelToken(s, tag).None? <==> forall j: nat :: !LabelMatchAt(s, tag, j)
  {
    FindLabelLeftmost(s, tag, 0);
  }

  /** The token found is the group captured at the leftmost place `i` where
      the pattern can match. */
  lemma LabelTokenGroup(s: string, tag: string) returns (i: nat)
    requires LabelToken(s, tag).Some?
    ensures GroupAt(s, tag, i, LabelToken(s, tag).value)
    ensures forall j: nat | j < i :: !LabelMatchAt(s, tag, j)
  {
    FindLabelLeftmost(s, tag, 0);
    i := FindLabel(s, tag, 0).value;
    var w := SpaceEnd(s, i + |tag|);
    var t := s[w..TokenEnd(s, w)];
    assert LabelToken(s, tag) == Some(t);
    assert OccursAt(s, t, w);
    assert GroupAt(s, tag, i, t);
  }

  /** `s.split("Product:", 1)[1].strip()` when `s` holds the tag: the
      stripped text after its first occurrence. */
  function ProductText(s: string): (r: Option<string>)
    ensures r.Some? <==> Contains(s, ProductLabel)
  {
    match FindFrom(s, ProductLabel, 0)
    case None => None
    case Some(i) => Some(Strip(s[i + |ProductLabel|..]))
  }

  /** Where the product text comes from: the stripped rest of the line after
      the first occurrence of the tag. */
  lemma ProductTextAt(s: string) returns (i: nat)
    requires Contains(s, ProductLabel)
    ensures OccursAt(s, ProductLabel, i)
    ensures forall j: nat | j < i :: !OccursAt(s, ProductLabel, j)
    ensures ProductText(s) == Some(Strip(s[i + |ProductLabel|..]))
  {
    i := FindFrom(s, ProductLabel, 0).value;
  }

  /** The product a line sets: its product text, unless that is empty, since
      `text or rec["product"]` keeps the old value for an empty text. */
  function ProductOf(s: string): (r: Option<string>)
    ensures r.Some? ==> r.value != [] && ProductText(s) == r
    ensures r.None? <==> ProductText(s).None? || ProductText(s) == Some([])
  {
    match ProductText(s)
    case Some(t) => if t != [] then Some(t) else None
    case None => None
  }

  // ---------------------------------------------------------------------
  // The last line that sets a field wins.
  // ---------------------------------------------------------------------

  /** The index of the last of `lines[lo..hi]` that has a `tag` token. */
  function LastTokenLine(lines: seq<string>, lo: nat, hi: nat, tag: string): (r: Option<nat>)
    requires lo <= hi <= |lines|
    decreases hi
    ensures r.Some? ==> lo <= r.value < hi && LabelToken(lines[r.value], tag).Some?
    ensures forall k | lo <= k < hi && (r.None? || r.value < k) :: LabelToken(lines[k], tag).None?
  {
    if hi == lo then None
    else if LabelToken(lines[hi - 1], tag).Some? then Some(hi - 1)
    else LastTokenLine(lines, lo, hi - 1, tag)
  }

  /** The token of `tag` on the last of `lines[lo..hi]` that has one. */
  function LastToken(lines: seq<string>, lo: nat, hi: nat, tag: string): Option<string>
    requires lo <= hi <= |lines|
  {
    match LastTokenLine(lines, lo, hi, tag)
    case None => None
    case Some(j) => LabelToken(lines[j], tag)
  }

  /** One more line: its token, if it has one, replaces the last one. */
  lemma LastTokenStep(lines: seq<string>, lo: nat, hi: nat, tag: string)
    requires lo <= hi < |lines|
    ensures LastToken(lines, lo, hi + 1, tag) ==
      if LabelToken(lines[hi], tag).Some? then LabelToken(lines[hi], tag) else LastToken(lines, lo, hi, tag)
  {
  }

  /** The index of the last of `lines[lo..hi]` that sets the product. */
  function LastProductLine(lines: seq<string>, lo: nat, hi: nat): (r: Option<nat>)
    requires lo <= hi <= |lines|
    decreases hi
    ensures r.Some? ==> lo <= r.value < hi && ProductOf(lines[r.value]).Some?
  {
    if hi == lo then None
    else if ProductOf(lines[hi - 1]).Some? then Some(hi - 1)
    else LastProductLine(lines, lo, hi - 1)
  }

  /** No line after the one `LastProductLine` finds sets a product. */
  lemma {:induction false} LastProductLineIsLast(lines: seq<string>, lo: nat, hi: nat)
    requires lo <= hi <= |lines|
    decreases hi
    ensures var r := LastProductLine(lines, lo, hi);
      forall k | lo <= k < hi && (r.None? || r.value < k) :: ProductOf(lines[k]).None?
  {
    if hi > lo && ProductOf(lines[hi - 1]).None? {
      LastProductLineIsLast(lines, lo, hi - 1);
    }
  }

  /** The product of the last of `lines[lo..hi]` that sets one. */
  function LastProduct(lines: seq<string>, lo: nat, hi: nat): Option<string>
    requires lo <= hi <= |lines|
  {
    match LastProductLine(lines, lo, hi)
    case None => None
    case Some(j) => ProductOf(lines[j])
  }

  lemma LastProductStep(lines: seq<string>, lo: nat, hi: nat)
    requires lo <= hi < |lines|
    ensures LastProduct(lines, lo, hi + 1) ==
      if ProductOf(lines[hi]).Some? then ProductOf(lines[hi]) else LastProduct(lines, lo, hi)
  {
  }

  function OrNA(v: Option<string>): string {
    match v
    case Some(t) => t
    case None => NA
  }

  /** The chassis serial field for the last chassis serial token found. */
  function SerialField(v: Option<string>, serno: string): (f: string)
    ensures v.None? ==> f == NA
    ensures v.Some? ==> (f == SingleChassis <==> v.value == serno || v.value == SingleChassis)
    ensures v.Some? && f != SingleChassis ==> f == v.value
  {
    match v
    case Some(t) => if t == serno then SingleChassis else t
    case None => NA
  }

  /** Some line of `lines[lo..hi]` does not start with `want`. */
  predicate Mismatch(lines: seq<string>, lo: nat, hi: nat, want: string)
    requires lo <= hi <= |lines|
  {
    exists j | lo <= j < hi :: !StartsWith(lines[j], want)
  }

  /** One more line flags the range exactly when it does not start with `want`. */
  lemma MismatchStep(lines: seq<string>, lo: nat, hi: nat, want: string)
    requires lo <= hi < |lines|
    ensures Mismatch(lines, lo, hi + 1, want) == (Mismatch(lines, lo, hi, want) || !StartsWith(lines[hi], want))
  {
    if Mismatch(lines, lo, hi + 1, want) && !Mismatch(lines, lo, hi, want) {
      var j :| lo <= j < hi + 1 && !StartsWith(lines[j], want);
      assert j == hi;
    }
  }

  /** The record and error flag of a block, from what its lines say: the
      identity groups of line 1; from lines 2 on, the last chassis code,
      serial and slot tokens and the last non-empty product text; and an
      error when a later line does not start with the name and a colon. */
  function BlockOf(lines: seq<string>): (r: (Record, bool))
    requires |lines| >= 1
    ensures MatchIdentity(lines[0]).None? ==> r == (Blank, true)
    ensures MatchIdentity(lines[0]).Some? ==>
      var id := MatchIdentity(lines[0]).value;
      && r.0.name == id.name && r.0.devid == id.devid && r.0.lnn == id.lnn
      && r.0.serno == id.serno && r.0.extip == id.extip
      && (r.1 <==> Mismatch(lines, 1, |lines|, id.name + ":"))
  {
    match MatchIdentity(lines[0])
    case None => (Blank, true)
    case Some(id) =>
      var n := |lines|;
      (Record(
         OrNA(LastProduct(lines, 1, n)), id.name, id.devid, id.lnn, id.serno,
         OrNA(LastToken(lines, 1, n, ChsCodeLabel)),
         SerialField(LastToken(lines, 1, n, ChsSerNLabel), id.serno),
         OrNA(LastToken(lines, 1, n, ChsSlotLabel)), id.extip),
       Mismatch(lines, 1, n, id.name + ":"))
  }

  /** `parse_block`, statement by statement: the record starts blank, the
      identity groups fill five fields, and each later line may flag the
      block and update the chassis fields and the product. */
  method ParseBlock(lines: seq<string>) returns (rec: Record, err: bool)
    requires |lines| >= 1
    ensures (rec, err) == BlockOf(lines)
  {
    rec := Blank;
    err := false;
    var first := lines[0];
    var m := MatchIdentity(first);
    if m.None? {
      return rec, true;
    }
    var id := m.value;
    rec := rec.(name := id.name, devid := id.devid, lnn := id.lnn, serno := id.serno, extip := id.extip);
    var want := rec.name + ":";
    for i := 1 to |lines|
      invariant err == Mismatch(lines, 1, i, want)
      invariant rec == Record(
                  OrNA(LastProduct(lines, 1, i)), id.name, id.devid, id.lnn, id.serno,
                  OrNA(LastToken(lines, 1, i, ChsCodeLabel)),
                  SerialField(LastToken(lines, 1, i, ChsSerNLabel), id.serno),
                  OrNA(LastToken(lines, 1, i, ChsSlotLabel)), id.extip)
    {
      LastTokenStep(lines, 1, i, ChsSerNLabel);
      LastTokenStep(lines, 1, i, ChsSlotLabel);
      LastTokenStep(lines, 1, i, ChsCodeLabel);
      LastProductStep(lines, 1, i);
      MismatchStep(lines, 1, i, want);
      rec, err := ScanLine(rec, err, lines[i], want);
    }
  }

  /** The body of the loop of `parse_block` for one continuation line `s`:
      flag a line that does not start with `want`, then let the line's
      chassis serial, slot and code tokens and its non-empty product text
      replace the fields they name. */
  method ScanLine(rec: Record, err: bool, s: string, want: string) returns (rec': Record, err': bool)
    ensures err' == (err || !StartsWith(s, want))
    ensures rec'.chssern == match LabelToken(s, ChsSerNLabel)
                            case None => rec.chssern
                            case Some(t) => SerialField(Some(t), rec.serno)
    ensures rec'.chsslot == match LabelToken(s, ChsSlotLabel) case None => rec.chsslot case Some(t) => t
    ensures rec'.chscode == match LabelToken(s, ChsCodeLabel) case None => rec.chscode case Some(t) => t
    ensures rec'.product == match ProductOf(s) case None => rec.product case Some(t) => t
    ensures rec' == rec.(chssern := rec'.chssern, chsslot := rec'.chsslot, chscode := rec'.chscode,
                         product := rec'.product)
  {
    err' := err;
    if !StartsWith(s, want) {
      err' := true;
    }
    var chssern := TakeSerial(rec.chssern, rec.serno, s);
    var chsslot := TakeToken(rec.chsslot, s, ChsSlotLabel);
    var chscode := TakeToken(rec.chscode, s, ChsCodeLabel);
    var product := TakeProduct(rec.product, s);
    rec' := rec.(chssern := chssern, chsslot := chsslot, chscode := chscode, product := product);
  }

  /** The chassis serial statement: the token after ChsSerN:, or
      SINGLE-CHASSIS when it is the node serial; `prev` when there is none. */
  method TakeSerial(prev: string, serno: string, s: string) returns (f: string)
    ensures f == match LabelToken(s, ChsSerNLabel) case None => prev case Some(t) => SerialField(Some(t), serno)
  {
    f := prev;
    if Contains(s, ChsSerNLabel) {
      var mm := LabelToken(s, ChsSerNLabel);
      if mm.Some? {
        var chssern := mm.value;
        if chssern == serno {
          f := SingleChassis;
        } else {
          f := chssern;
        }
      }
    }
  }

  /** The chassis slot and code statements: the token after `tag`, or `prev`
      when there is none. */
  method TakeToken(prev: string, s: string, tag: string) returns (f: string)
    ensures f == match LabelToken(s, tag) case None => prev case Some(t) => t
  {
    f := prev;
    if Contains(s, tag) {
      var mm := LabelToken(s, tag);
      if mm.Some? {
        f := mm.value;
      }
    }
  }

  /** The product statement: the stripped text after Product: unless it is
      empty, `prev` otherwise. */
  method TakeProduct(prev: string, s: string) returns (f: string)
    ensures f == match ProductOf(s) case None => prev case Some(t) => t
  {
    f := prev;
    if Contains(s, ProductLabel) {
      var text := ProductText(s).value;
      if text != [] {
        f := text;
      }
    }
  }

  // ---------------------------------------------------------------------
  // What the record of a block is.
  // ---------------------------------------------------------------------

  /** A block whose first line fails the identity pattern gives the blank
      record, flagged as an error. */
  lemma UnmatchedBlock(lines: seq<string>)
    requires |lines| >= 1 && MatchIdentity(lines[0]).None?
    ensures BlockOf(lines) == (Blank, true)
    ensures forall c | 0 <= c < |Header| :: Cells(BlockOf(lines).0)[c] == NA
  {
  }

  /** In a matched block, the five identity fields are the groups of line 1,
      four tokens and a run of digits and dots. */
  lemma MatchedIdentityFields(lines: seq<string>)
    requires |lines| >= 1 && MatchIdentity(lines[0]).Some?
    ensures var rec := BlockOf(lines).0;
      && IsToken(rec.name) && IsToken(rec.devid) && IsToken(rec.lnn) && IsToken(rec.serno)
      && IsIpToken(rec.extip)
  {
    IdentityGroups(lines[0]);
  }

  /** The error flag of a matched block is set exactly when one of lines 2
      onward does not begin with the node name and a colon; the chassis
      fields are extracted all the same. */
  lemma MatchedBlockFlag(lines: seq<string>, j: nat)
    requires |lines| >= 1 && MatchIdentity(lines[0]).Some?
    requires 1 <= j < |lines| && !StartsWith(lines[j], MatchIdentity(lines[0]).value.name + ":")
    ensures BlockOf(lines).1
    ensures BlockOf(lines).0.chscode == OrNA(LastToken(lines, 1, |lines|, ChsCodeLabel))
    ensures BlockOf(lines).0.chsslot == OrNA(LastToken(lines, 1, |lines|, ChsSlotLabel))
    ensures BlockOf(lines).0.chssern ==
      SerialField(LastToken(lines, 1, |lines|, ChsSerNLabel), MatchIdentity(lines[0]).value.serno)
    ensures BlockOf(lines).0.product == OrNA(LastProduct(lines, 1, |lines|))
  {
  }

  /** In every matched block, flagged or not, the chassis code and slot are
      the last tokens the later lines give for their labels, or "n/a". */
  lemma MatchedBlockChassis(lines: seq<string>)
    requires |lines| >= 1 && MatchIdentity(lines[0]).Some?
    ensures BlockOf(lines).0.chscode == OrNA(LastToken(lines, 1, |lines|, ChsCodeLabel))
    ensures BlockOf(lines).0.chsslot == OrNA(LastToken(lines, 1, |lines|, ChsSlotLabel))
  {
  }

  /** Lines that all begin with the node name and a colon give no error. */
  lemma MatchedBlockClean(lines: seq<string>)
    requires |lines| >= 1 && MatchIdentity(lines[0]).Some?
    requires forall j | 1 <= j < |lines| :: StartsWith(lines[j], MatchIdentity(lines[0]).value.name + ":")
    ensures !BlockOf(lines).1
  {
  }

  /** The chassis serial field is SINGLE-CHASSIS when the last chassis
      serial token is the node's serial (or is itself SINGLE-CHASSIS), that
      token otherwise, and "n/a" when no line has one. */
  lemma ChassisSerial(lines: seq<string>)
    requires |lines| >= 1 && MatchIdentity(lines[0]).Some?
    ensures var rec := BlockOf(lines).0;
      match LastToken(lines, 1, |lines|, ChsSerNLabel)
      case None => rec.chssern == NA
      case Some(t) =>
        && (rec.chssern == SingleChassis <==> t == rec.serno || t == SingleChassis)
        && (rec.chssern != SingleChassis ==> rec.chssern == t)
  {
  }

  /** The product field of a matched block is "n/a" when no later line has
      a non-empty product text, and otherwise the text of the last line that
      has one. */
  lemma ProductField(lines: seq<string>)
    requires |lines| >= 1 && MatchIdentity(lines[0]).Some?
    ensures var p := BlockOf(lines).0.product;
      || (p == NA && forall j | 1 <= j < |lines| :: ProductOf(lines[j]).None?)
      || (exists j | 1 <= j < |lines| :: ProductText(lines[j]) == Some(p) && p != [] &&
            forall k | j < k < |lines| :: ProductOf(lines[k]).None?)
  {
    var n := |lines|;
    LastProductLineIsLast(lines, 1, n);
    match LastProductLine(lines, 1, n)
    case None =>
    case Some(j) =>
      assert ProductText(lines[j]) == Some(BlockOf(lines).0.product);
  }
}
