# serials-get: the text-to-table pipeline, modelled and verified in Dafny

`serials-get.py` gathers hardware identity lines from the nodes of a storage
cluster and prints them as a table with one row per node: product, node
name, device id, logical node number, serial number, chassis code, chassis
serial, chassis slot and external address. This project models the part of
the script that works on text alone:

- the node-list resolver `parse_nodes_spec`, which turns `"1,3-5"` style
  lists into the ascending list of node ids;
- the noise filter `is_noise` and the line clean-up in front of the scanner;
- the block scanner `rows_from_text`, which finds six-line blocks that start
  at a `NAME:` line and turns each into one 9-cell row, driving
  `parse_block`, which reads the identity pattern of line 1 and the chassis
  and product fields of lines 2 to 6;
- `sort_rows`, the stable sort of the body rows by a header column named
  without regard to case or a trailing colon;
- `format_columns`, the column-aligned text output.

The modules follow the script's structure:

| file | module | models |
|---|---|---|
| `wrappers.dfy` | `Wrappers` | `Option` and `Result`, for the error paths |
| `text.dfy` | `Text` | the Python string operations used (`strip`, `rstrip`, `lower`, `in`, `startswith`, `split`, `join`, `<=` on `str`) over ASCII |
| `noise.dfy` | `Noise` | `NOISE_PATTERNS`, `is_noise` and the list comprehension on line 56 |
| `nodespec.dfy` | `NodeSpec` | `int()`, one comma-separated piece, `parse_nodes_spec` and `sorted(set)` |
| `identity.dfy` | `Identity` | the line-1 regular expression, as a backtracking matcher beside a declarative description of the lines it accepts and the groups it chooses, proved to accept the same lines and to choose the same groups |
| `block.dfy` | `Block` | `HEADER`, the record, the chassis regular expressions and `parse_block` |
| `scanner.dfy` | `Scanner` | `rows_from_text` |
| `sort.dfy` | `Sort` | `sort_rows` and Python's stable `sorted` |
| `format.dfy` | `Format` | `format_columns` |

The form of the model follows the form of the code:

- The three loops of the script are methods with loops: `Block.ParseBlock`
  updates the record and the error flag line by line, `Scanner.RowsFromText`
  walks the index `i` and appends rows, and `NodeSpec.ParseNodesSpec` grows
  the node set piece by piece.
- Each method is proved equal to a specification function:
  - `Block.ParseBlock` to `Block.BlockOf`;
  - `Scanner.RowsFromText` to the header followed by `Scanner.ScanFrom`;
  - `NodeSpec.ParseNodesSpec` to `NodeSpec.SortedNodes` of `NodeSpec.NodeSet`, or to the error of `NodeSpec.NodeSet`.

  The lemmas state what the script promises in terms of those functions.
- `is_noise`, `sort_rows` and `format_columns` are expressions in the script,
  and they are functions here.

Notes on reading the code:

- The chassis serial field is `"SINGLE-CHASSIS"` when the last `ChsSerN:`
  token equals the node's serial. It is also `"SINGLE-CHASSIS"` when the
  token itself is that literal text, because the code then stores the
  token as it is. So "SINGLE-CHASSIS exactly when the token equals the
  serial" is not quite what the code does. `Block.ChassisSerial` states
  what the code does.
- A node list is described as made of non-negative ids, but `int()` accepts
  a sign, and the code splits at the first `-`. Some consequences:
  - `3--5` is the range from -5 to 3;
  - `+4` is node 4;
  - `-4` is an error, because the empty text before the dash is not an
    integer (`NodeSpec.NegativeSingleRejected`).

  The model follows the code.
- A block reaches the short-block branch of `rows_from_text` only at the end
  of the output (`Scanner.ShortBlockIsLast`).
- `sort_rows` is called with `sortby` either absent or a string; it is an
  `Option<string>` here, and both `None` and the empty string count as "no
  key", as `not sortby` does. When two header names normalise to the same
  key, the dictionary comprehension keeps the later column, and so does
  `Sort.ColumnIndex`.
- Python's `sorted(..., reverse=True)` is stable as well: rows with equal
  keys keep their input order in both directions. `Sort.StableSort` is the
  reference sort, an insertion sort that places each row ahead of the
  later rows that have its key.

## Model

| member | source | states |
|---|---|---|
| Noise.IsNoise | serials-get.py:6-13 | a line is noise exactly when it is whitespace only or one of the three noise patterns occurs at some position in it |
| Noise.Filtered | serials-get.py:56 | the scanner's input is never longer than the collected lines and none of its lines is noise |
| Noise.DataSurvivesNewlineTrim | serials-get.py:56 | removing the trailing line feeds of a data line leaves a data line |
| Noise.FilteredAppend | serials-get.py:56 | the filter works line by line: filtering a concatenation concatenates the filtered parts, keeping the order |
| Noise.FilteredOne | serials-get.py:56 | one line passes, without its trailing line feeds, exactly when it is not noise |
| Noise.FilteredKeepsData | serials-get.py:56 | every line that is not noise reaches the scanner, trimmed of its line feeds |
| Text.Strip | serials-get.py:82 | `strip()` is empty exactly when the text is all whitespace, and otherwise begins and ends with a non-space character |
| Text.StripRange | serials-get.py:82 | `strip()` is the slice of the text between its leading and its trailing whitespace, both removed as far as they go |
| Text.StripNoOuterSpace | serials-get.py:82 | `strip()` leaves a text that neither begins nor ends with whitespace unchanged |
| Text.TrimRightChar | serials-get.py:56 | `rstrip(c)` is a prefix of the text, only `c` was removed, and it does not end with `c` |
| Text.Lower | serials-get.py:120-121 | `lower()` keeps the length and lower-cases each ASCII letter in place |
| Text.Split | serials-get.py:81 | `split(",")` gives at least one piece and no piece holds a comma |
| Text.JoinSplit | serials-get.py:81 | joining the pieces of a split with the separator gives back the text |
| Text.SplitJoin | serials-get.py:53 | splitting pieces joined by a separator that none of them holds gives back the pieces |
| Text.JoinLength | serials-get.py:53 | a join is as long as its pieces together plus one separator between each two |
| Text.JoinAt | serials-get.py:53 | in a join, piece `i` starts after the pieces before it and one separator after each of them, and a separator follows it unless it is last |
| Text.IndexOf | serials-get.py:85-86 | the first occurrence of a character, and None exactly when it does not occur |
| Text.IndexOfFirst | serials-get.py:86 | a position holding the character with no earlier occurrence is the one found |
| Text.FindFrom | serials-get.py:32 | the first occurrence of a pattern from a position on, and None exactly when there is none |
| Text.ContainsIff | serials-get.py:13 | `pat in s` holds exactly when the pattern occurs at some position |
| Text.LexLeTotal | serials-get.py:130 | any two strings are ordered by `<=` one way or the other |
| Text.LexLeTrans | serials-get.py:130 | `<=` on strings is transitive |
| Text.LexLeAntisym | serials-get.py:130 | two strings each `<=` the other are equal |
| NodeSpec.Interval | serials-get.py:89 | `range(a, b + 1)` holds exactly the integers from a to b |
| NodeSpec.IntStrip | serials-get.py:87 | the text `int()` reads is empty exactly when the input is all C-locale whitespace (tab to carriage return, and the space), and otherwise begins and ends with another character |
| NodeSpec.IntStripRange | serials-get.py:87 | that text is the slice left after removing the longest leading and trailing runs of C-locale whitespace |
| NodeSpec.ParseInt | serials-get.py:87 | `int()` of whitespace gives no number |
| NodeSpec.ParseIntMeaning | serials-get.py:87 | `int()` succeeds exactly when the text left after removing C-locale whitespace from both ends is well-formed digits, alone or after one sign; the value is that of the digits without underscores, negated after `-` |
| NodeSpec.ParseIntRejects | serials-get.py:87 | any character of that text other than a digit, an underscore or a leading sign makes `int()` fail |
| NodeSpec.ParseIntRejectsSeparator | serials-get.py:87 | a separator character 0x1C to 0x1F anywhere in the text makes `int()` fail, since `int()` does not skip it |
| NodeSpec.SeparatorInRange | serials-get.py:82-87 | the piece `1`, 0x1C, `-3` is an error naming `1`, 0x1C: `strip` leaves the separator inside the piece and `int()` refuses the left half |
| NodeSpec.ParseIntOfNatToString | serials-get.py:87 | `int()` reads back the decimal text of any natural number, also with a minus sign in front |
| NodeSpec.ParsePart | serials-get.py:82-91 | a piece is skipped exactly when it is blank, and a range it gives is never reversed |
| NodeSpec.ParsePartSingle | serials-get.py:90-91 | a non-blank piece without `-` is the single node `int()` reads from it, or the error naming the stripped piece |
| NodeSpec.ParsePartRange | serials-get.py:85-89 | a piece whose first `-` is at `k` is an error naming the first half `int()` rejects, else the span from the smaller to the larger of the two values |
| NodeSpec.ParsePartErrors | serials-get.py:85-91 | every error names a text `int()` rejects, and a single node is the value of the whole stripped piece, which holds no `-` |
| NodeSpec.NodeSet | serials-get.py:80-91 | the node set exists exactly when every piece parses |
| NodeSpec.NodeSetMeaning | serials-get.py:80-91 | the node set exists exactly when every piece parses; it then holds exactly the ids of the single pieces and the inclusive ranges; otherwise the error is that of the first piece that fails |
| NodeSpec.ReversedRange | serials-get.py:85-89 | `a-b` and `b-a` give the same span, from the smaller to the larger end |
| NodeSpec.RangeOfDigits | serials-get.py:85-89 | two unsigned digit strings joined by a dash give the span between their values, whichever is larger |
| NodeSpec.NegativeSingleRejected | serials-get.py:85-87 | a piece `-n` is rejected, because the text before the dash is empty |
| NodeSpec.SortedNodes | serials-get.py:92 | `sorted(nodes)` is strictly ascending and holds exactly the elements of the set |
| NodeSpec.ResolvePiece | serials-get.py:82-91 | one pass of the loop resolves the piece as `ParsePart` describes |
| NodeSpec.ParseNodesSpec | serials-get.py:79-92 | on a list whose pieces all parse, the result is the sorted node set, strictly ascending and holding exactly the node set; otherwise it is the error of the first piece that fails |
| Identity.MatchIdentity | serials-get.py:23 | the search fails exactly when the matcher finds nothing, and a match gives four tokens and a run of digits and dots |
| Identity.IdentityMatchesIff | serials-get.py:23-25 | line 1 matches the identity pattern exactly when the five labels occur in order, each followed by its group, with gaps free of line feeds |
| Identity.IdentityGroups | serials-get.py:23-26 | the five fields of a match are groups of such an occurrence: four tokens, then a run of digits and dots |
| Identity.MatchSound | serials-get.py:23 | what the matcher returns from a label on is an occurrence of the rest of the pattern |
| Identity.MatchComplete | serials-get.py:23 | whenever the rest of the pattern occurs at a position, the matcher finds a match there |
| Identity.SearchSound | serials-get.py:23 | `re.search` returns the groups of an occurrence at the leftmost start position where the pattern occurs at all |
| Identity.GreedyLongest | serials-get.py:23 | a `(\S+)` group ends at the last place up to the end of the token from which the following gap stage succeeds, and the later groups are the ones that gap stage returns |
| Identity.MatchFromLongest | serials-get.py:23 | from a label, the group is the longest token after which the rest of the pattern can still follow, and the later groups are the ones the gap stage after it returns |
| Identity.LazyShortest | serials-get.py:23 | a `.*?` gap is the shortest one, free of line feeds, after which the rest of the pattern matches |
| Identity.SearchGroups | serials-get.py:23 | what `re.search` finds is four tokens and a run of digits and dots |
| Identity.SearchChoice | serials-get.py:23 | the match taken is the one the matcher returns at the leftmost start where the pattern occurs, with there the longest first token after which the rest can follow |
| Identity.IdentityChoice | serials-get.py:23-26 | the fields of a match come from the leftmost occurrence of the pattern; there, with the labels at `ps`, each of NAME, DEVID, LNN and SERNO is the longest token after which the rest of the pattern can follow, each gap is the shortest, and EXT-IP is the whole run of digits and dots after the whitespace |
| Identity.IdentityDetermined | serials-get.py:23-26 | any groups that the longest-token, shortest-gap and whole-run rules pick at the leftmost start of the pattern are exactly the fields `re.search` gives |
| Identity.MatchChosen | serials-get.py:23 | what the matcher returns from a label on is the match those rules pick, with the labels at `ps` |
| Identity.MatchStep | serials-get.py:23 | from a label, the matcher takes the longest token and the shortest gap to the next label, and returns from there the later groups |
| Identity.ChosenShape | serials-get.py:23 | a match picked by those rules is an occurrence of the pattern |
| Identity.ChosenUnique | serials-get.py:23 | from one start those rules pick one match only: the same label positions and the same groups |
| Identity.ChosenStepUnique | serials-get.py:23 | two steps picked from the same label start have the same token and reach the next label at the same place |
| Identity.IpGroupSpan | serials-get.py:23 | an EXT-IP group is exactly the run of digits and dots after the whitespace that follows the label |
| Identity.IpEnd | serials-get.py:23 | the run of digits and dots from a position ends at the end of the line or before a character outside `[0-9.]` |
| Identity.SearchComplete | serials-get.py:23 | `re.search` succeeds whenever the pattern occurs at some start position |
| Identity.ShapeGroups | serials-get.py:23 | the groups of an occurrence are non-space tokens, the last one of digits and dots |
| Block.Cells | serials-get.py:72-75 | a row has one cell per header column and each cell is the record field of that column, product first and external address last |
| Block.LabelToken | serials-get.py:33-45 | the chassis token found is a non-space token, and there is none when the line lacks the label |
| Block.LabelTokenFound | serials-get.py:33-34 | `re.search(tag + r"\s*(\S+)", s)` finds nothing exactly when the pattern can match nowhere |
| Block.LabelTokenGroup | serials-get.py:33-35 | the token found is the group at the leftmost place where the pattern can match |
| Block.ProductText | serials-get.py:46-47 | the product text exists exactly when the line holds `Product:` |
| Block.ProductTextAt | serials-get.py:47 | the product text is the stripped rest of the line after the first occurrence of `Product:` |
| Block.ProductOf | serials-get.py:47 | a line sets the product exactly when its stripped text after `Product:` is non-empty, and then sets it to that text |
| Block.SerialField | serials-get.py:36-39 | no token leaves "n/a"; a token gives SINGLE-CHASSIS exactly when it is the node serial or that literal text, and otherwise the token |
| Block.LastTokenLine | serials-get.py:29-45 | the line found holds a token for the label and no later line does |
| Block.LastProductLineIsLast | serials-get.py:46-47 | no line after the one found sets a product |
| Block.MismatchStep | serials-get.py:30-31 | a line flags the block exactly when it does not start with the expected prefix, and the flag stays set |
| Block.BlockOf | serials-get.py:15-49 | a line 1 that fails the identity pattern gives the blank record and the error flag; otherwise the five identity fields are the groups, and the flag is set exactly when a later line does not start with `name:` |
| Block.ParseBlock | serials-get.py:15-49 | the loop computes the record and flag of `BlockOf`: the identity groups, the last chassis tokens, the last non-empty product and the prefix check |
| Block.ScanLine | serials-get.py:29-47 | one continuation line flags the block unless it starts with the prefix, and replaces exactly the chassis fields and product it supplies |
| Block.TakeSerial | serials-get.py:32-39 | the ChsSerN statement gives the token, SINGLE-CHASSIS for the node serial, or the old value when there is no token |
| Block.TakeToken | serials-get.py:40-45 | the ChsSlot and ChsCode statements give the token, or the old value when there is none |
| Block.TakeProduct | serials-get.py:46-47 | the Product statement gives the non-empty stripped text, or the old value |
| Block.UnmatchedBlock | serials-get.py:16-25 | a block whose line 1 fails the identity pattern gives the all-"n/a" record with the error flag set |
| Block.MatchedIdentityFields | serials-get.py:23-26 | a matched block's name, device id, node number and serial are tokens, and its address is digits and dots |
| Block.MatchedBlockFlag | serials-get.py:29-47 | a matched block with a line that does not start with `name:` is flagged, and its chassis fields and product are still those its lines give |
| Block.MatchedBlockChassis | serials-get.py:40-45 | in every matched block, flagged or not, the chassis code and slot are the last tokens the later lines give for their labels, or "n/a" |
| Block.MatchedBlockClean | serials-get.py:29-31 | a matched block whose later lines all start with `name:` is not flagged |
| Block.ChassisSerial | serials-get.py:32-39 | the chassis serial is "n/a" with no token; otherwise it is SINGLE-CHASSIS exactly when the last token is the serial or that literal, and else that token |
| Block.ProductField | serials-get.py:46-47 | the product is "n/a" when no later line has non-empty product text, and otherwise the text of the last line that has some |
| Scanner.BlockRow | serials-get.py:64-75 | every block gives a row of nine cells |
| Scanner.ScanFrom | serials-get.py:60-76 | every row of the scan has nine cells |
| Scanner.RowsFromText | serials-get.py:55-77 | the loop returns the header followed by the rows of the scan over the filtered lines; row 0 is the header and every row has nine cells |
| Scanner.ReadBlock | serials-get.py:64-75 | one pass at a `NAME:` line builds the row of the block that starts there |
| Scanner.Starts | serials-get.py:60-63 | every block start is a `NAME:` line, and each start lies six or more lines after the one before it |
| Scanner.RowCount | serials-get.py:60-76 | there is one row per block start |
| Scanner.RowAtStart | serials-get.py:64-76 | the `k`-th row is the row of the block at the `k`-th start |
| Scanner.MarkersCovered | serials-get.py:60-63 | every `NAME:` line is a block start or lies inside the six lines of one |
| Scanner.SkippedLines | serials-get.py:61-63 | a line outside every block does not start with `NAME:` |
| Scanner.ShortBlockIsLast | serials-get.py:64-65 | every block but the last has all six lines |
| Scanner.ShortBlockRow | serials-get.py:65-67 | a block cut short gives OUTPUT-ERROR with the other eight fields "n/a", and nothing follows it |
| Scanner.UnmatchedBlockRow | serials-get.py:69-71 | a full block whose line 1 fails the identity pattern gives the OUTPUT-ERROR row with all other fields "n/a" |
| Scanner.MismatchedBlockRow | serials-get.py:69-71 | a matched block with a line that does not start with `name:` gives product OUTPUT-ERROR, with the other fields taken from its lines |
| Scanner.CleanBlockRow | serials-get.py:69-75 | a matched block whose lines all start with `name:` gives the row of its record |
| Sort.NormalizeName | serials-get.py:120-121 | the normalised name is the lower-cased name without its trailing colons |
| Sort.NormalizeIgnoresColons | serials-get.py:120-121 | extra trailing colons do not change the normalised name |
| Sort.NormalizeIgnoresCase | serials-get.py:120-121 | case does not change the normalised name |
| Sort.ColumnIndex | serials-get.py:120-126 | the column found has the key, no later column has it, and None means no column has it |
| Sort.SortKey | serials-get.py:118-121 | there is a key exactly when `sortby` is a non-empty string, and it is the normalised `sortby` |
| Sort.SortColumn | serials-get.py:118-126 | a sort column exists only for a key that names a column, and is then that column |
| Sort.HeaderKeysOf | serials-get.py:4 | the normalised header names are product, name, devid, lnn, serno, chscode, chssern, chsslot, ext-ip |
| Sort.HeaderColumn | serials-get.py:4 | a key names a header column exactly when it is one of the valid keys, and then the column has that key |
| Sort.InsertSorted | serials-get.py:130 | inserting a row into sorted rows keeps them sorted |
| Sort.InsertWithKey | serials-get.py:130 | inserting a row puts it ahead of the rows with its key and leaves the order of every other key alone |
| Sort.SortSorted | serials-get.py:130 | the reference sort orders the rows by the key column, either direction |
| Sort.SortStable | serials-get.py:130 | the reference sort keeps the input order of the rows with any one key |
| Sort.StableSort | serials-get.py:130 | the sorted rows are a permutation of the input rows |
| Sort.SortRows | serials-get.py:117-131 | with no key or an unknown key the rows come back unchanged; otherwise the header stays first, and the body is a permutation of the input body, sorted by the key column in the requested direction, keeping the input order of equal keys |
| Format.ColumnWidth | serials-get.py:52 | a column's width is at least each of its cells' lengths, and equal to one of them |
| Format.WidthIsMax | serials-get.py:52 | every column is exactly as wide as its widest cell |
| Format.PadRight | serials-get.py:53 | `ljust(w)` keeps the cell as a prefix, pads with spaces, and is `w` long unless the cell is longer |
| Format.LineLength | serials-get.py:52-53 | every line is as long as the column widths together plus two spaces between each two columns |
| Format.CellAt | serials-get.py:52-53 | cell `c` of a line starts after the widths of the earlier columns and two spaces after each, is padded with spaces to its column's width, and is followed by the two-space gap unless it is last |
| Format.FormatColumns | serials-get.py:51-53 | the output is as long as its lines together plus one line feed between each two |
| Format.OneLinePerRow | serials-get.py:53 | when no cell holds a line feed, the output splits into exactly one line per row, in row order |

## Left out

- `collect_from_cluster` (serials-get.py:94-115) runs shell commands on the cluster with timeouts and writes warnings to the error stream. That is I/O, so the model starts from the list of lines it returns.
- `main` (serials-get.py:133-181) handles argument parsing, the CSV writer, files and the exit status. It is command-line and I/O plumbing.
- The "Valid options" message that `sort_rows` writes to the error stream for an unknown key is output, so it is not modelled. The rows that come back are modelled.
- `dirsizereport.py` and `dirsizereport-thread.py` are a separate tool that walks filesystems with threads and formats sizes in floating point. They are not part of this model.
- Text is ASCII:
  - the whitespace that `strip` and `\s` use is the ASCII subset of `str.isspace`. The whitespace `int()` skips is the C-locale set, which lacks the separators 0x1C to 0x1F (`NodeSpec.IsIntSpace`);
  - `lower()` changes only `A` to `Z`;
  - `int()` reads only ASCII digits.

  Unicode whitespace, case mapping and digits are not modelled.
- NodeSpec.ParseInt: has no limit on the length of the digit text. From Python 3.11 on, `int()` by default raises ValueError for decimal text of more than 4300 digits (`sys.get_int_max_str_digits`). The model reads such text as its value.
- The regular expressions are not run by a regular-expression engine. Each pattern the script uses is written out as its own matcher: the identity pattern on line 23, and the three chassis patterns on lines 33, 41 and 44.
- Scanner.RowsFromText, Block.ParseBlock, NodeSpec.ParseNodesSpec: their input is a Dafny sequence or string value. Aliasing of the Python lists they read is not modelled.
- Sort.SortRows: requires a header row when a key is given, and a cell in the sort column in every body row (`CanSort`). On other input the script raises `IndexError`, and that exception is not modelled.
- Format.FormatColumns: requires at least one row, and every row with as many cells as the first (`Rectangular`). On other input the script raises `IndexError`, and that exception is not modelled.
- Sort.HeaderColumn: states that each valid key finds its own column of the header. It does not separately state that the nine normalised header names are pairwise distinct.
