/** The pure parts of `python/print-space.py`: the right-aligned table of
    `print_table`, returned as the lines it prints, and the reading of
    `df -P` output in `get_space_for_one_host`. */
module SpaceReport {
  import opened Wrappers
  import opened Strings
  import opened TextTable

  // ---------------------------------------------------------------------------
  // print_table
  // ---------------------------------------------------------------------------

  /** `print_table` indexes `table[0]` and every row up to its width. */
  predicate Printable(table: seq<seq<string>>)
  {
    |table| >= 1 && forall r :: 0 <= r < |table| ==> |table[r]| >= |table[0]|
  }

  /** `"{:>w}".format(s)`: spaces up to width `w`, then `s`; a longer `s` is
      kept whole. */
  function PadLeft(s: string, w: nat): (r: string)
    ensures |r| == if |s| >= w then |s| else w
    ensures r[|r| - |s|..] == s && forall k :: 0 <= k < |r| - |s| ==> r[k] == ' '
  {
    if |s| >= w then s else Repeat(' ', w - |s|) + s
  }

  /** `widths`: one per column of the first row, each the longest cell of
      that column. */
  function ColumnWidths(table: seq<seq<string>>): (ws: seq<nat>)
    requires Printable(table)
    ensures |ws| == |table[0]|
    ensures forall r, c :: 0 <= r < |table| && 0 <= c < |ws| ==> |table[r][c]| <= ws[c]
    ensures forall c :: 0 <= c < |ws| ==> exists r :: 0 <= r < |table| && |table[r][c]| == ws[c]
  {
    assert forall c :: 0 <= c < |table[0]| ==> HasColumn(table, c);
    seq(|table[0]|, c requires 0 <= c < |table[0]| => ColumnWidth(table, c))
  }

  /** The right-aligned cells of one row. */
  function RightSlots(ws: seq<nat>, row: seq<string>): (r: seq<string>)
    requires |row| >= |ws|
    ensures |r| == |ws| && forall c :: 0 <= c < |ws| ==> r[c] == PadLeft(row[c], ws[c])
  {
    seq(|ws|, c requires 0 <= c < |ws| => PadLeft(row[c], ws[c]))
  }

  /** `fmt.format(*row)`: the right-aligned cells joined by two spaces. */
  function RowText(ws: seq<nat>, row: seq<string>): string
    requires |row| >= |ws|
  {
    Join(RightSlots(ws, row), "  ")
  }

  /** `print_table`: exactly one line per row, in order. */
  function PrintTable(table: seq<seq<string>>): (lines: seq<string>)
    requires Printable(table)
    ensures |lines| == |table|
    ensures forall r :: 0 <= r < |table| ==> lines[r] == RowText(ColumnWidths(table), table[r])
  {
    var ws := ColumnWidths(table);
    seq(|table|, r requires 0 <= r < |table| => RowText(ws, table[r]))
  }

  /** Every line of `print_table` is `sum(widths) + 2 * (ncols - 1)` long. */
  lemma PrintTableLength(table: seq<seq<string>>, r: nat)
    requires Printable(table) && |table[0]| >= 1 && r < |table|
    ensures |PrintTable(table)[r]| == Sum(ColumnWidths(table)) + 2 * (|table[0]| - 1)
  {
    var ws := ColumnWidths(table);
    var slots := RightSlots(ws, table[r]);
    JoinLength(slots, "  ");
    TotalLengthIsSum(slots, ws);
  }

  /** Where column `c` starts in a line of `print_table`. */
  function RightColumnStart(ws: seq<nat>, c: nat): nat
    requires c <= |ws|
  {
    Sum(ws[..c]) + 2 * c
  }

  /** The padded cell `c` of a row sits at `RightColumnStart(ws, c)`. */
  lemma RightSlotPlacement(ws: seq<nat>, row: seq<string>, c: nat)
    requires |row| >= |ws| && c < |ws| && |row[c]| <= ws[c]
    requires forall k :: 0 <= k < |ws| ==> |row[k]| <= ws[k]
    ensures RightColumnStart(ws, c) + ws[c] <= |RowText(ws, row)|
    ensures RowText(ws, row)[RightColumnStart(ws, c)..RightColumnStart(ws, c) + ws[c]] ==
      PadLeft(row[c], ws[c])
  {
    var slots := RightSlots(ws, row);
    SlotLengths(ws, row);
    JoinPiece(slots, "  ", c);
    PrefixLengthIsSum(slots, ws, c);
    assert PieceStart(slots, "  ", c) == RightColumnStart(ws, c);
  }

  /** Cells that fit their widths are padded to exactly those widths. */
  lemma SlotLengths(ws: seq<nat>, row: seq<string>)
    requires |row| >= |ws|
    requires forall k :: 0 <= k < |ws| ==> |row[k]| <= ws[k]
    ensures forall k :: 0 <= k < |ws| ==> |RightSlots(ws, row)[k]| == ws[k]
  {
  }

  /** `line` holds `cell` right-aligned in the `w` columns from `start`:
      spaces, then the cell itself, ending at the right edge. */
  predicate RightAlignedAt(line: string, start: nat, w: nat, cell: string)
  {
    |cell| <= w && start + w <= |line| &&
    line[start + w - |cell|..start + w] == cell &&
    forall k :: start <= k < start + w - |cell| ==> line[k] == ' '
  }

  /** Cell `c` of a row is right-aligned in its column, never cut. */
  lemma RightAlignedRow(ws: seq<nat>, row: seq<string>, c: nat)
    requires |row| >= |ws| && c < |ws|
    requires forall k :: 0 <= k < |ws| ==> |row[k]| <= ws[k]
    ensures RightAlignedAt(RowText(ws, row), RightColumnStart(ws, c), ws[c], row[c])
  {
    RightSlotPlacement(ws, row, c);
    PaddedWithin(RowText(ws, row), RightColumnStart(ws, c), ws[c], row[c]);
  }

  /** A cell padded on the left, found in a line, is right-aligned there. */
  lemma PaddedWithin(line: string, start: nat, w: nat, cell: string)
    requires |cell| <= w && start + w <= |line| && line[start..start + w] == PadLeft(cell, w)
    ensures RightAlignedAt(line, start, w, cell)
  {
    var slot := PadLeft(cell, w);
    var cut := w - |cell|;
    SliceWithin(line, start, slot, cut, w);
    SliceWithin(line, start, slot, 0, cut);
  }

  /** In every line of `print_table`, cell `c` of that row is right-aligned in
      its column. */
  lemma RightAligned(table: seq<seq<string>>, r: nat, c: nat)
    requires Printable(table) && r < |table| && c < |table[0]|
    ensures RightAlignedAt(PrintTable(table)[r], RightColumnStart(ColumnWidths(table), c),
      ColumnWidths(table)[c], table[r][c])
  {
    RightAlignedRow(ColumnWidths(table), table[r], c);
  }

  // ---------------------------------------------------------------------------
  // Reading `df -P`
  // ---------------------------------------------------------------------------

  /** `DfStats(total, available, used, used_pct)`. */
  datatype DfStats = DfStats(total: string, available: string, used: string, usedPct: string)

  /** `DfStats(*line.split()[1:5])`: whitespace fields 2 to 5 of the line;
      with fewer than five fields the constructor gets too few arguments. */
  function StatsOf(line: string): (r: Option<DfStats>)
    ensures var f := SplitWhitespace(line);
      (r.Some? <==> |f| >= 5) &&
      (r.Some? ==> r.value == DfStats(f[1], f[2], f[3], f[4]))
  {
    var f := SplitWhitespace(line);
    if |f| >= 5 then Some(DfStats(f[1], f[2], f[3], f[4])) else None
  }

  /** A `df -P` data line of single-space-separated fields: the stats are
      fields 2 to 5 when there are at least five fields, and missing
      otherwise. */
  lemma StatsOfFields(fields: seq<string>)
    requires forall k :: 0 <= k < |fields| ==> |fields[k]| > 0
    requires forall k, i :: 0 <= k < |fields| && 0 <= i < |fields[k]| ==> !IsSpace(fields[k][i])
    ensures |fields| >= 5 ==> StatsOf(Join(fields, " ")) == Some(DfStats(fields[1], fields[2], fields[3], fields[4]))
    ensures |fields| < 5 ==> StatsOf(Join(fields, " ")) == None
  {
    SplitWhitespaceJoin(fields);
  }

  /** Output line `i + 1` (the header is line 0) exists and has the fields. */
  predicate LineReadable(lines: seq<string>, i: nat)
  {
    i + 1 < |lines| && StatsOf(lines[i + 1]).Some?
  }

  /** The dictionary comprehension over readable lines: built in order, a
      later equal directory overwriting an earlier one. */
  function Entries(lines: seq<string>, dirs: seq<string>): map<string, DfStats>
    requires forall i :: 0 <= i < |dirs| ==> LineReadable(lines, i)
    decreases |dirs|
  {
    if |dirs| == 0 then map[]
    else
      var n := |dirs| - 1;
      assert LineReadable(lines, n);
      Entries(lines, dirs[..n])[dirs[n] := StatsOf(lines[n + 1]).value]
  }

  /** The directories are the keys. */
  lemma {:induction false} EntriesKeys(lines: seq<string>, dirs: seq<string>)
    requires forall i :: 0 <= i < |dirs| ==> LineReadable(lines, i)
    ensures Entries(lines, dirs).Keys == set d | d in dirs
    decreases |dirs|
  {
    if |dirs| > 0 {
      var n := |dirs| - 1;
      var prefix := dirs[..n];
      EntriesKeys(lines, prefix);
      assert dirs == prefix + [dirs[n]];
      assert (set d | d in dirs) == (set d | d in prefix) + {dirs[n]};
    }
  }

  /** Each directory maps to the stats of its own line when it is not
      repeated later. */
  lemma {:induction false} EntriesValues(lines: seq<string>, dirs: seq<string>, i: nat)
    requires forall j :: 0 <= j < |dirs| ==> LineReadable(lines, j)
    requires i < |dirs| && dirs[i] !in dirs[i + 1..]
    ensures LineReadable(lines, i)
    ensures dirs[i] in Entries(lines, dirs)
    ensures Entries(lines, dirs)[dirs[i]] == StatsOf(lines[i + 1]).value
    decreases |dirs|
  {
    assert LineReadable(lines, i);
    var n := |dirs| - 1;
    if i < n {
      var prefix := dirs[..n];
      assert dirs[i + 1..] == prefix[i + 1..] + [dirs[n]];
      assert prefix[i] == dirs[i] && dirs[i] != dirs[n];
      EntriesValues(lines, prefix, i);
    }
  }

  /** `get_space_for_one_host` after the remote `df -P`: split the output into
      lines and read one line per directory. */
  function ParseDf(output: string, dirs: seq<string>): (r: Option<map<string, DfStats>>)
    ensures r.None? <==> exists i :: 0 <= i < |dirs| && !LineReadable(Split(output, "\n"), i)
    ensures var lines := Split(output, "\n");
      r.Some? ==> (r.value.Keys == (set d | d in dirs) &&
        forall i :: 0 <= i < |dirs| && dirs[i] !in dirs[i + 1..] ==>
          LineReadable(lines, i) && r.value[dirs[i]] == StatsOf(lines[i + 1]).value)
  {
    var lines := Split(output, "\n");
    if forall i :: 0 <= i < |dirs| ==> LineReadable(lines, i) then
      var r := Some(Entries(lines, dirs));
      EntriesKeys(lines, dirs);
      assert forall i :: 0 <= i < |dirs| && dirs[i] !in dirs[i + 1..] ==>
        LineReadable(lines, i) && r.value[dirs[i]] == StatsOf(lines[i + 1]).value by {
        forall i | 0 <= i < |dirs| && dirs[i] !in dirs[i + 1..]
          ensures LineReadable(lines, i) && r.value[dirs[i]] == StatsOf(lines[i + 1]).value
        {
          EntriesValues(lines, dirs, i);
        }
      }
      r
    else
      None
  }
}
