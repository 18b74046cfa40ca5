/** `sort_rows`: orders the body of the table by one column, looked up by
    name without regard to case or a trailing colon, keeping the header row
    first. Python's `sorted` is stable, also with `reverse=True`; the model
    defines it by a stable insertion sort and proves that sort a sorted,
    order-keeping permutation. */
module Sort {
  import opened Wrappers
  import opened Text
  import opened Block

  // ---------------------------------------------------------------------
  // Column lookup.
  // ---------------------------------------------------------------------

  /** `col.lower().rstrip(":")`: the name a column is looked up by, the
      lower-cased name up to its trailing colons. */
  function NormalizeName(col: string): (r: string)
    ensures |r| <= |col|
    ensures forall i | 0 <= i < |r| :: r[i] == LowerChar(col[i])
    ensures forall i | |r| <= i < |col| :: col[i] == ':'
    ensures r == [] || r[|r| - 1] != ':'
  {
    TrimRightChar(Lower(col), ':')
  }

  /** Trailing colons do not change the name a column is looked up by. */
  lemma {:induction false} NormalizeIgnoresColons(col: string, n: nat)
    ensures NormalizeName(col + seq(n, _ => ':')) == NormalizeName(col)
  {
    if n > 0 {
      var longer := col + seq(n, _ => ':');
      var shorter := col + seq(n - 1, _ => ':');
      assert Lower(longer) == Lower(shorter) + [':'];
      assert Lower(longer)[..|Lower(longer)| - 1] == Lower(shorter);
      NormalizeIgnoresColons(col, n - 1);
    } else {
      assert col + seq(0, _ => ':') == col;
    }
  }

  /** Case does not change the name a column is looked up by. */
  lemma NormalizeIgnoresCase(col: string)
    ensures NormalizeName(Lower(col)) == NormalizeName(col)
  {
    assert Lower(Lower(col)) == Lower(col);
  }

  /** The last of the first `n` entries of `names` equal to `key`. */
  function LastIndexOf(names: seq<string>, key: string, n: nat): (r: Option<nat>)
    requires n <= |names|
    ensures r.Some? ==> r.value < n && names[r.value] == key
    ensures r.Some? ==> forall j | r.value < j < n :: names[j] != key
    ensures r.None? ==> forall j | 0 <= j < n :: names[j] != key
  {
    if n == 0 then None
    else if names[n - 1] == key then Some(n - 1)
    else LastIndexOf(names, key, n - 1)
  }

  /** The normalised names of the header's columns, the keys of `header_lower_map`. */
  function Names(header: seq<string>): (names: seq<string>)
    ensures |names| == |header|
    ensures forall j | 0 <= j < |header| :: names[j] == NormalizeName(header[j])
  {
    seq(|header|, j requires 0 <= j < |header| => NormalizeName(header[j]))
  }

  /** The column `header_lower_map[key]` stands for: the last column whose
      normalised name is `key` (a later entry of the dictionary comprehension
      replaces an earlier one), or None when `key` is not a column. */
  function ColumnIndex(header: seq<string>, key: string): (r: Option<nat>)
    ensures r.Some? ==> r.value < |header| && NormalizeName(header[r.value]) == key
    ensures r.Some? ==> forall j | r.value < j < |header| :: NormalizeName(header[j]) != key
    ensures r.None? ==> forall j | 0 <= j < |header| :: NormalizeName(header[j]) != key
  {
    var names := Names(header);
    LastIndexOf(names, key, |names|)
  }

  /** The normalised sort key, or None when `not sortby` holds (no key, or
      the empty string). */
  function SortKey(sortby: Option<string>): (r: Option<string>)
    ensures r.Some? <==> sortby.Some? && sortby.value != []
    ensures r.Some? ==> r.value == NormalizeName(sortby.value)
  {
    if sortby.None? || sortby.value == [] then None else Some(NormalizeName(sortby.value))
  }

  /** The column `sort_rows` sorts by, or None when it leaves the rows as they are. */
  function SortColumn(rows: seq<seq<string>>, sortby: Option<string>): (r: Option<nat>)
    requires SortKey(sortby).Some? ==> |rows| >= 1
    ensures r.Some? ==> SortKey(sortby).Some? && r == ColumnIndex(rows[0], SortKey(sortby).value)
    ensures r.None? ==> SortKey(sortby).None? || ColumnIndex(rows[0], SortKey(sortby).value).None?
  {
    match SortKey(sortby)
    case None => None
    case Some(key) => ColumnIndex(rows[0], key)
  }

  /** The names the table's columns are looked up by: the valid sort keys. */
  const HeaderKeys: seq<string> :=
    ["product", "name", "devid", "lnn", "serno", "chscode", "chssern", "chsslot", "ext-ip"]

  /** A name that lower-cases to `key` and one colon normalises to `key`. */
  lemma NormalizesTo(col: string, key: string)
    requires key != [] && key[|key| - 1] != ':' && Lower(col) == key + ":"
    ensures NormalizeName(col) == key
  {
    assert (key + ":")[..|key|] == key;
  }

  lemma ProductKey()
    ensures NormalizeName(Header[0]) == HeaderKeys[0]
  {
    NormalizesTo(Header[0], HeaderKeys[0]);
  }

  lemma NameKey()
    ensures NormalizeName(Header[1]) == HeaderKeys[1]
  {
    NormalizesTo(Header[1], HeaderKeys[1]);
  }

  lemma DevidKey()
    ensures NormalizeName(Header[2]) == HeaderKeys[2]
  {
    NormalizesTo(Header[2], HeaderKeys[2]);
  }

  lemma LnnKey()
    ensures NormalizeName(Header[3]) == HeaderKeys[3]
  {
    NormalizesTo(Header[3], HeaderKeys[3]);
  }

  lemma SernoKey()
    ensures NormalizeName(Header[4]) == HeaderKeys[4]
  {
    NormalizesTo(Header[4], HeaderKeys[4]);
  }

  lemma ChsCodeKey()
    ensures NormalizeName(Header[5]) == HeaderKeys[5]
  {
    NormalizesTo(Header[5], HeaderKeys[5]);
  }

  lemma ChsSerNKey()
    ensures NormalizeName(Header[6]) == HeaderKeys[6]
  {
    NormalizesTo(Header[6], HeaderKeys[6]);
  }

  lemma ChsSlotKey()
    ensures NormalizeName(Header[7]) == HeaderKeys[7]
  {
    NormalizesTo(Header[7], HeaderKeys[7]);
  }

  lemma ExtIpKey()
    ensures NormalizeName(Header[8]) == HeaderKeys[8]
  {
    NormalizesTo(Header[8], HeaderKeys[8]);
  }

  /** Each header name normalises to its key. */
  lemma HeaderKeysOf()
    ensures |HeaderKeys| == |Header|
    ensures forall c | 0 <= c < |Header| :: NormalizeName(Header[c]) == HeaderKeys[c]
  {
    ProductKey(); NameKey(); DevidKey(); LnnKey(); SernoKey(); ChsCodeKey(); ChsSerNKey(); ChsSlotKey(); ExtIpKey();
  }

  /** A sort key names a column of the table's header exactly when it is
      one of the valid keys, and then it names a column with that key. */
  lemma HeaderColumn(sortby: string)
    ensures var key := NormalizeName(sortby);
      && (ColumnIndex(Header, key).Some? <==> key in HeaderKeys)
      && (ColumnIndex(Header, key).Some? ==> HeaderKeys[ColumnIndex(Header, key).value] == key)
  {
    HeaderKeysOf();
    var key := NormalizeName(sortby);
    if key in HeaderKeys {
      var c :| 0 <= c < |HeaderKeys| && HeaderKeys[c] == key;
      assert NormalizeName(Header[c]) == key;
    }
  }

  // ---------------------------------------------------------------------
  // The order and the sort.
  // ---------------------------------------------------------------------

  /** The sort key of a row, `r[idx]`. */
  function Key(row: seq<string>, idx: nat): string {
    if idx < |row| then row[idx] else []
  }

  /** `a` may come before `b`: `a <= b`, or `b <= a` when sorting descending. */
  predicate InOrder(a: string, b: string, desc: bool) {
    if desc then LexLe(b, a) else LexLe(a, b)
  }

  lemma InOrderTotal(a: string, b: string, desc: bool)
    ensures InOrder(a, b, desc) || InOrder(b, a, desc)
  {
    LexLeTotal(a, b);
  }

  lemma InOrderTrans(a: string, b: string, c: string, desc: bool)
    requires InOrder(a, b, desc) && InOrder(b, c, desc)
    ensures InOrder(a, c, desc)
  {
    if desc { LexLeTrans(c, b, a); } else { LexLeTrans(a, b, c); }
  }

  /** The rows are ordered by column `idx`. */
  predicate Sorted(s: seq<seq<string>>, idx: nat, desc: bool) {
    forall i, j | 0 <= i < j < |s| :: InOrder(Key(s[i], idx), Key(s[j], idx), desc)
  }

  /** The rows of `s` whose key is `v`, in their order in `s`. */
  function WithKey(s: seq<seq<string>>, idx: nat, v: string): (r: seq<seq<string>>)
    ensures |r| <= |s|
  {
    if s == [] then []
    else (if Key(s[0], idx) == v then [s[0]] else []) + WithKey(s[1..], idx, v)
  }

  /** Put `x` in front of the first row of `t` it may precede. */
  function Insert(x: seq<string>, t: seq<seq<string>>, idx: nat, desc: bool): (r: seq<seq<string>>)
    ensures multiset(r) == multiset(t) + multiset{x}
  {
    if t == [] then [x]
    else if InOrder(Key(x, idx), Key(t[0], idx), desc) then [x] + t
    else
      assert t == [t[0]] + t[1..];
      [t[0]] + Insert(x, t[1..], idx, desc)
  }

  /** `sorted(s, key=lambda r: r[idx], reverse=desc)`: each row is inserted
      into the sorted rest of the rows, ahead of the rows with its key. */
  function StableSort(s: seq<seq<string>>, idx: nat, desc: bool): (r: seq<seq<string>>)
    ensures multiset(r) == multiset(s)
  {
    if s == [] then []
    else
      assert s == [s[0]] + s[1..];
      Insert(s[0], StableSort(s[1..], idx, desc), idx, desc)
  }

  /** A row that may precede every row of sorted rows can go first. */
  lemma PrependSorted(x: seq<string>, t: seq<seq<string>>, idx: nat, desc: bool)
    requires Sorted(t, idx, desc)
    requires forall j | 0 <= j < |t| :: InOrder(Key(x, idx), Key(t[j], idx), desc)
    ensures Sorted([x] + t, idx, desc)
  {
    var r := [x] + t;
    assert forall i | 0 < i < |r| :: r[i] == t[i - 1];
  }

  /** The rows after the first of sorted rows are sorted. */
  lemma TailSorted(t: seq<seq<string>>, idx: nat, desc: bool)
    requires t != [] && Sorted(t, idx, desc)
    ensures Sorted(t[1..], idx, desc)
  {
    assert forall i | 0 <= i < |t[1..]| :: t[1..][i] == t[i + 1];
  }

  /** Every row of an insertion's result is the inserted row or a row it was inserted into. */
  lemma InsertMember(x: seq<string>, t: seq<seq<string>>, idx: nat, desc: bool, j: nat)
    requires j < |Insert(x, t, idx, desc)|
    ensures Insert(x, t, idx, desc)[j] == x || Insert(x, t, idx, desc)[j] in t
  {
    var r := Insert(x, t, idx, desc);
    assert r[j] in multiset(r);
  }

  /** Inserting into sorted rows keeps them sorted. */
  lemma {:induction false} InsertSorted(x: seq<string>, t: seq<seq<string>>, idx: nat, desc: bool)
    requires Sorted(t, idx, desc)
    ensures Sorted(Insert(x, t, idx, desc), idx, desc)
  {
    if t == [] {
    } else if InOrder(Key(x, idx), Key(t[0], idx), desc) {
      forall j | 0 <= j < |t|
        ensures InOrder(Key(x, idx), Key(t[j], idx), desc)
      {
        if j > 0 {
          InOrderTrans(Key(x, idx), Key(t[0], idx), Key(t[j], idx), desc);
        }
      }
      PrependSorted(x, t, idx, desc);
    } else {
      InOrderTotal(Key(x, idx), Key(t[0], idx), desc);
      TailSorted(t, idx, desc);
      var rest := Insert(x, t[1..], idx, desc);
      InsertSorted(x, t[1..], idx, desc);
      forall j | 0 <= j < |rest|
        ensures InOrder(Key(t[0], idx), Key(rest[j], idx), desc)
      {
        InsertMember(x, t[1..], idx, desc, j);
        if rest[j] != x {
          var m :| 0 <= m < |t[1..]| && t[1..][m] == rest[j];
          assert t[m + 1] == rest[j];
        }
      }
      PrependSorted(t[0], rest, idx, desc);
    }
  }

  /** The rows with key `v` of a row followed by more rows. */
  lemma WithKeyCons(r: seq<string>, s: seq<seq<string>>, idx: nat, v: string)
    ensures Key(r, idx) == v ==> WithKey([r] + s, idx, v) == [r] + WithKey(s, idx, v)
    ensures Key(r, idx) != v ==> WithKey([r] + s, idx, v) == WithKey(s, idx, v)
  {
    assert ([r] + s)[1..] == s;
  }

  /** The step of `InsertWithKey` where `x` goes past the first row of
      `t`, which then has a different key. */
  lemma InsertPastWithKey(x: seq<string>, t: seq<seq<string>>, idx: nat, v: string, rest: seq<seq<string>>)
    requires t != [] && (Key(x, idx) == v ==> Key(t[0], idx) != v)
    requires Key(x, idx) == v ==> WithKey(rest, idx, v) == [x] + WithKey(t[1..], idx, v)
    requires Key(x, idx) != v ==> WithKey(rest, idx, v) == WithKey(t[1..], idx, v)
    ensures Key(x, idx) == v ==> WithKey([t[0]] + rest, idx, v) == [x] + WithKey(t, idx, v)
    ensures Key(x, idx) != v ==> WithKey([t[0]] + rest, idx, v) == WithKey(t, idx, v)
  {
    WithKeyCons(t[0], rest, idx, v);
    WithKeyFirst(t, idx, v);
    if Key(t[0], idx) == v {
      assert WithKey([t[0]] + rest, idx, v) == [t[0]] + WithKey(t[1..], idx, v);
    }
  }

  /** Inserting `x` adds it in front of the rows of `t` with its key, and
      leaves the rows with any other key as they were. */
  lemma {:induction false} InsertWithKey(x: seq<string>, t: seq<seq<string>>, idx: nat, desc: bool, v: string)
    requires Sorted(t, idx, desc)
    ensures Key(x, idx) == v ==> WithKey(Insert(x, t, idx, desc), idx, v) == [x] + WithKey(t, idx, v)
    ensures Key(x, idx) != v ==> WithKey(Insert(x, t, idx, desc), idx, v) == WithKey(t, idx, v)
  {
    if t == [] {
      assert Insert(x, t, idx, desc) == [x] + [];
      WithKeyCons(x, [], idx, v);
    } else if InOrder(Key(x, idx), Key(t[0], idx), desc) {
      assert Insert(x, t, idx, desc) == [x] + t;
      WithKeyCons(x, t, idx, v);
    } else {
      var rest := Insert(x, t[1..], idx, desc);
      assert Insert(x, t, idx, desc) == [t[0]] + rest;
      TailSorted(t, idx, desc);
      InsertWithKey(x, t[1..], idx, desc, v);
      if Key(x, idx) == v {
        LexLeRefl(v);
      }
      InsertPastWithKey(x, t, idx, v, rest);
    }
  }

  /** The sort orders the rows. */
  lemma {:induction false} SortSorted(s: seq<seq<string>>, idx: nat, desc: bool)
    ensures Sorted(StableSort(s, idx, desc), idx, desc)
  {
    if s != [] {
      SortSorted(s[1..], idx, desc);
      InsertSorted(s[0], StableSort(s[1..], idx, desc), idx, desc);
    }
  }

  /** The rows with key `v` of non-empty rows. */
  lemma WithKeyFirst(s: seq<seq<string>>, idx: nat, v: string)
    requires s != []
    ensures Key(s[0], idx) == v ==> WithKey(s, idx, v) == [s[0]] + WithKey(s[1..], idx, v)
    ensures Key(s[0], idx) != v ==> WithKey(s, idx, v) == WithKey(s[1..], idx, v)
  {
  }

  /** The sort is stable: the rows with any one key come out in the order
      they went in. */
  lemma {:induction false} SortStable(s: seq<seq<string>>, idx: nat, desc: bool, v: string)
    ensures WithKey(StableSort(s, idx, desc), idx, v) == WithKey(s, idx, v)
  {
    if s != [] {
      var rest := StableSort(s[1..], idx, desc);
      var sorted := Insert(s[0], rest, idx, desc);
      assert StableSort(s, idx, desc) == sorted;
      SortStable(s[1..], idx, desc, v);
      assert (Key(s[0], idx) == v ==> WithKey(sorted, idx, v) == [s[0]] + WithKey(rest, idx, v))
          && (Key(s[0], idx) != v ==> WithKey(sorted, idx, v) == WithKey(rest, idx, v)) by {
        SortSorted(s[1..], idx, desc);
        InsertWithKey(s[0], rest, idx, desc, v);
      }
      WithKeyFirst(s, idx, v);
    }
  }

  // ---------------------------------------------------------------------
  // sort_rows.
  // ---------------------------------------------------------------------

  /** `sorttype.lower() == "desc"`. */
  predicate Descending(sorttype: string) {
    Lower(sorttype) == "desc"
  }

  /** What `sort_rows` demands of its input: a header row when there is a
      key to look up, and a cell in the sort column in every body row. */
  predicate CanSort(rows: seq<seq<string>>, sortby: Option<string>) {
    (SortKey(sortby).Some? ==> |rows| >= 1) &&
    (SortKey(sortby).Some? && SortColumn(rows, sortby).Some? ==>
      forall k | 1 <= k < |rows| :: SortColumn(rows, sortby).value < |rows[k]|)
  }

  /** `sort_rows`: with no key, or a key that names no column, the rows as
      they are; otherwise the header row followed by the body rows ordered
      by the key column, a permutation of the body in which rows with equal
      keys keep their order. */
  function SortRows(rows: seq<seq<string>>, sortby: Option<string>, sorttype: string): (r: seq<seq<string>>)
    requires CanSort(rows, sortby)
    ensures SortColumn(rows, sortby).None? ==> r == rows
    ensures SortColumn(rows, sortby).Some? ==>
      var idx := SortColumn(rows, sortby).value;
      && |r| == |rows| && r[0] == rows[0]
      && multiset(r[1..]) == multiset(rows[1..])
      && Sorted(r[1..], idx, Descending(sorttype))
      && forall v :: WithKey(r[1..], idx, v) == WithKey(rows[1..], idx, v)
  {
    match SortColumn(rows, sortby)
    case None => rows
    case Some(idx) =>
      var desc := Descending(sorttype);
      var body := StableSort(rows[1..], idx, desc);
      SortSorted(rows[1..], idx, desc);
      forall v ensures WithKey(body, idx, v) == WithKey(rows[1..], idx, v) {
        SortStable(rows[1..], idx, desc, v);
      }
      assert |body| == |rows[1..]| by {
        assert |multiset(body)| == |multiset(rows[1..])|;
      }
      assert ([rows[0]] + body)[1..] == body;
      [rows[0]] + body
  }
}
