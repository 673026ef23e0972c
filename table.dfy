/** The `Table` of `python/utils/table.py`: its emptiness predicates and the
    boxed rendering of `pretty_print`, returned as the lines it prints. Cells
    are held as their `str()` forms. */
module TextTable {
  import opened Wrappers
  import opened Strings

  datatype Table = Table(caption: Option<string>, headers: seq<string>, rows: seq<seq<string>>)

  // ---------------------------------------------------------------------------
  // Emptiness
  // ---------------------------------------------------------------------------

  /** `any(len(str(_)) > 0 for _ in cells)`, scanned left to right. */
  function AnyNonEmpty(cells: seq<string>): bool
  {
    |cells| > 0 && (|cells[0]| > 0 || AnyNonEmpty(cells[1..]))
  }

  /** `any(has(_) for _ in rows)`. */
  function AnyRowNonEmpty(rows: seq<seq<string>>): bool
  {
    |rows| > 0 && (AnyNonEmpty(rows[0]) || AnyRowNonEmpty(rows[1..]))
  }

  /** `has_caption`: the caption is neither `None` nor `""`. */
  function HasCaption(t: Table): bool
  {
    t.caption.Some? && t.caption.value != ""
  }

  function HasHeaders(t: Table): bool
  {
    AnyNonEmpty(t.headers)
  }

  function HasValues(t: Table): bool
  {
    AnyRowNonEmpty(t.rows)
  }

  function IsEmpty(t: Table): bool
  {
    !(HasCaption(t) || HasHeaders(t) || HasValues(t))
  }

  /** The scan finds a non-empty cell exactly when there is one. */
  lemma {:induction false} AnyNonEmptyMeans(cells: seq<string>)
    ensures AnyNonEmpty(cells) <==> exists i :: 0 <= i < |cells| && cells[i] != ""
  {
    if |cells| > 0 {
      AnyNonEmptyMeans(cells[1..]);
      if AnyNonEmpty(cells[1..]) {
        var i :| 0 <= i < |cells[1..]| && cells[1..][i] != "";
        assert cells[i + 1] != "";
      }
      if exists i :: 0 <= i < |cells| && cells[i] != "" {
        var i :| 0 <= i < |cells| && cells[i] != "";
        if i > 0 {
          assert cells[1..][i - 1] != "";
        }
      }
    }
  }

  /** The row scan finds a non-empty cell exactly when some row has one. */
  lemma {:induction false} AnyRowNonEmptyMeans(rows: seq<seq<string>>)
    ensures AnyRowNonEmpty(rows) <==>
      exists r, i :: 0 <= r < |rows| && 0 <= i < |rows[r]| && rows[r][i] != ""
  {
    if |rows| > 0 {
      AnyRowNonEmptyMeans(rows[1..]);
      AnyNonEmptyMeans(rows[0]);
      if AnyRowNonEmpty(rows[1..]) {
        var r, i :| 0 <= r < |rows[1..]| && 0 <= i < |rows[1..][r]| && rows[1..][r][i] != "";
        assert rows[r + 1][i] != "";
      }
      if exists r, i :: 0 <= r < |rows| && 0 <= i < |rows[r]| && rows[r][i] != "" {
        var r, i :| 0 <= r < |rows| && 0 <= i < |rows[r]| && rows[r][i] != "";
        if r > 0 {
          assert rows[1..][r - 1][i] != "";
        }
      }
    }
  }

  /** `is_empty` holds exactly when the caption is missing or `""` and every
      header and every cell is `""`. */
  lemma IsEmptyMeans(t: Table)
    ensures IsEmpty(t) <==>
      (t.caption.None? || t.caption.value == "") &&
      (forall i :: 0 <= i < |t.headers| ==> t.headers[i] == "") &&
      (forall r, i :: 0 <= r < |t.rows| && 0 <= i < |t.rows[r]| ==> t.rows[r][i] == "")
  {
    AnyNonEmptyMeans(t.headers);
    AnyRowNonEmptyMeans(t.rows);
  }

  // ---------------------------------------------------------------------------
  // Column widths (shared with `print_table` of `python/print-space.py`)
  // ---------------------------------------------------------------------------

  /** Every row of `table` has a cell in column `i`. */
  predicate HasColumn(table: seq<seq<string>>, i: nat)
  {
    forall r :: 0 <= r < |table| ==> i < |table[r]|
  }

  /** `max(len(row[i]) for row in table)`: the length of the longest cell of
      column `i`. */
  function ColumnWidth(table: seq<seq<string>>, i: nat): (w: nat)
    requires |table| >= 1 && HasColumn(table, i)
    ensures forall r :: 0 <= r < |table| ==> |table[r][i]| <= w
    ensures exists r :: 0 <= r < |table| && |table[r][i]| == w
  {
    if |table| == 1 then |table[0][i]|
    else
      var rest := ColumnWidth(table[1..], i);
      assert forall r :: 1 <= r < |table| ==> table[r] == table[1..][r - 1];
      if |table[0][i]| >= rest then |table[0][i]| else rest
  }

  function Sum(ws: seq<nat>): nat
  {
    if |ws| == 0 then 0 else ws[0] + Sum(ws[1..])
  }

  /** Pieces whose lengths are the widths add up to the widths' sum. */
  lemma {:induction false} TotalLengthIsSum(parts: seq<string>, ws: seq<nat>)
    requires |parts| == |ws| && forall k :: 0 <= k < |ws| ==> |parts[k]| == ws[k]
    ensures TotalLength(parts) == Sum(ws)
  {
    if |ws| > 0 {
      TotalLengthIsSum(parts[1..], ws[1..]);
    }
  }

  /** The same for the first `i` pieces and widths. */
  lemma PrefixLengthIsSum(parts: seq<string>, ws: seq<nat>, i: nat)
    requires |parts| == |ws| && i <= |ws| && forall k :: 0 <= k < |ws| ==> |parts[k]| == ws[k]
    ensures TotalLength(parts[..i]) == Sum(ws[..i])
  {
    TotalLengthIsSum(parts[..i], ws[..i]);
  }

  // ---------------------------------------------------------------------------
  // pretty_print
  // ---------------------------------------------------------------------------

  function Repeat(c: char, n: nat): (r: string)
    ensures |r| == n && forall k :: 0 <= k < n ==> r[k] == c
  {
    seq(n, _ => c)
  }

  /** `"{!s: <w}".format(s)`: `s` followed by spaces up to width `w`; a longer
      `s` is kept whole. */
  function PadRight(s: string, w: nat): (r: string)
    ensures |r| == if |s| >= w then |s| else w
    ensures r[..|s|] == s && forall k :: |s| <= k < |r| ==> r[k] == ' '
  {
    if |s| >= w then s else s + Repeat(' ', w - |s|)
  }

  /** Every row has a cell for each header, as indexing `_[idx]` demands. */
  predicate WellShaped(t: Table)
  {
    forall r :: 0 <= r < |t.rows| ==> |t.rows[r]| >= |t.headers|
  }

  /** The column widths of `pretty_print`: one per header, each the longest
      cell of that column over the header row and all rows. */
  function Widths(t: Table): (ws: seq<nat>)
    requires WellShaped(t)
    ensures |ws| == |t.headers|
    ensures forall i :: 0 <= i < |ws| ==> |t.headers[i]| <= ws[i]
    ensures forall r, i :: 0 <= r < |t.rows| && 0 <= i < |ws| ==> |t.rows[r][i]| <= ws[i]
  {
    var table := [t.headers] + t.rows;
    assert forall r :: 1 <= r < |table| ==> table[r] == t.rows[r - 1];
    assert forall i :: 0 <= i < |t.headers| ==> HasColumn(table, i);
    seq(|t.headers|, i requires 0 <= i < |t.headers| => ColumnWidth(table, i))
  }

  /** Each width is reached: by the header or by some row of its column. */
  lemma WidthsAttained(t: Table, i: nat)
    requires WellShaped(t) && i < |t.headers|
    ensures |t.headers[i]| == Widths(t)[i] ||
      exists r :: 0 <= r < |t.rows| && |t.rows[r][i]| == Widths(t)[i]
  {
    var table := [t.headers] + t.rows;
    assert forall r :: 1 <= r < |table| ==> table[r] == t.rows[r - 1];
    assert HasColumn(table, i);
    var r :| 0 <= r < |table| && |table[r][i]| == ColumnWidth(table, i);
    if r > 0 {
      assert |t.rows[r - 1][i]| == Widths(t)[i];
    }
  }

  /** `sep`: `+-`, the dashes of each column joined by `-+-`, then `-+`. */
  function SepLine(ws: seq<nat>): string
  {
    "+-" + Join(seq(|ws|, i requires 0 <= i < |ws| => Repeat('-', ws[i])), "-+-") + "-+"
  }

  /** The cells of one line, each padded to its column width. */
  function Slots(ws: seq<nat>, cells: seq<string>): (r: seq<string>)
    requires |cells| >= |ws|
    ensures |r| == |ws| && forall i :: 0 <= i < |ws| ==> r[i] == PadRight(cells[i], ws[i])
  {
    seq(|ws|, i requires 0 <= i < |ws| => PadRight(cells[i], ws[i]))
  }

  /** `fmt2.format(*cells)`: `| `, the padded cells joined by ` | `, then ` |`;
      cells beyond the widths are ignored. */
  function CellLine(ws: seq<nat>, cells: seq<string>): string
    requires |cells| >= |ws|
  {
    "| " + Join(Slots(ws, cells), " | ") + " |"
  }

  /** The rendered table below the caption: the separator, the headers, the
      separator, a line per row and the separator. */
  function Framed(ws: seq<nat>, headers: seq<string>, rows: seq<seq<string>>): (lines: seq<string>)
    requires |headers| >= |ws| && forall r :: 0 <= r < |rows| ==> |rows[r]| >= |ws|
    ensures |lines| == |rows| + 4
    ensures lines[0] == lines[2] == lines[|lines| - 1] == SepLine(ws)
    ensures lines[1] == CellLine(ws, headers)
    ensures forall r :: 0 <= r < |rows| ==> lines[3 + r] == CellLine(ws, rows[r])
  {
    var sep := SepLine(ws);
    var body := RowLines(ws, rows);
    FramedIndex(sep, CellLine(ws, headers), body);
    [sep, CellLine(ws, headers), sep] + body + [sep]
  }

  /** Where the parts of a framed sequence sit. */
  lemma FramedIndex<T>(sep: T, head: T, body: seq<T>)
    ensures var s := [sep, head, sep] + body + [sep];
      |s| == |body| + 4 && s[0] == sep && s[1] == head && s[2] == sep && s[|s| - 1] == sep &&
      forall r :: 0 <= r < |body| ==> s[3 + r] == body[r]
  {
  }

  /** A line per row. */
  function RowLines(ws: seq<nat>, rows: seq<seq<string>>): (lines: seq<string>)
    requires forall r :: 0 <= r < |rows| ==> |rows[r]| >= |ws|
    ensures |lines| == |rows| && forall r :: 0 <= r < |rows| ==> lines[r] == CellLine(ws, rows[r])
  {
    seq(|rows|, r requires 0 <= r < |rows| => CellLine(ws, rows[r]))
  }

  /** `pretty_print(caption)`: the caption line when asked for and present,
      then the framed table with the column widths of `t`. */
  function PrettyPrint(t: Table, showCaption: bool): (lines: seq<string>)
    requires WellShaped(t)
    ensures var c := if HasCaption(t) && showCaption then 1 else 0;
      |lines| == c + |t.rows| + 4 &&
      (c == 1 ==> lines[0] == t.caption.value) &&
      forall k :: c <= k < |lines| ==> lines[k] == Framed(Widths(t), t.headers, t.rows)[k - c]
  {
    var head := if HasCaption(t) && showCaption then [t.caption.value] else [];
    var framed := Framed(Widths(t), t.headers, t.rows);
    ConcatIndex(head, framed);
    head + framed
  }

  /** With at least one column, the separator is `sum(widths) + 3n + 1` long. */
  lemma SepLineLength(ws: seq<nat>)
    requires |ws| >= 1
    ensures |SepLine(ws)| == Sum(ws) + 3 * |ws| + 1
  {
    var parts := seq(|ws|, i requires 0 <= i < |ws| => Repeat('-', ws[i]));
    JoinLength(parts, "-+-");
    TotalLengthIsSum(parts, ws);
  }

  /** With at least one column, a line of cells that fit their widths is
      `sum(widths) + 3n + 1` long, as long as the separator. */
  lemma CellLineLength(ws: seq<nat>, cells: seq<string>)
    requires |ws| >= 1 && |cells| >= |ws|
    requires forall i :: 0 <= i < |ws| ==> |cells[i]| <= ws[i]
    ensures |CellLine(ws, cells)| == Sum(ws) + 3 * |ws| + 1
  {
    JoinLength(Slots(ws, cells), " | ");
    TotalLengthIsSum(Slots(ws, cells), ws);
  }

  /** Where column `i` starts in a rendered line. */
  function ColumnStart(ws: seq<nat>, i: nat): nat
    requires i <= |ws|
  {
    2 + Sum(ws[..i]) + 3 * i
  }

  /** The padded cell `i` sits at `ColumnStart(ws, i)` in a line. */
  lemma SlotPlacement(ws: seq<nat>, cells: seq<string>, i: nat)
    requires |cells| >= |ws| && i < |ws|
    requires forall k :: 0 <= k < |ws| ==> |cells[k]| <= ws[k]
    ensures ColumnStart(ws, i) + ws[i] <= |CellLine(ws, cells)|
    ensures CellLine(ws, cells)[ColumnStart(ws, i)..ColumnStart(ws, i) + ws[i]] ==
      PadRight(cells[i], ws[i])
  {
    var slots := Slots(ws, cells);
    var joined := Join(slots, " | ");
    JoinPiece(slots, " | ", i);
    PrefixLengthIsSum(slots, ws, i);
    var start := PieceStart(slots, " | ", i);
    assert start + 2 == ColumnStart(ws, i);
    var line := CellLine(ws, cells);
    assert line[2..2 + |joined|] == joined;
    SliceWithin(line, 2, joined, start, start + ws[i]);
  }

  /** Cell `i` of a line is left-aligned in its column: the cell itself, never
      cut, at `ColumnStart`, followed by spaces up to the column width. */
  lemma CellPlacement(ws: seq<nat>, cells: seq<string>, i: nat)
    requires |cells| >= |ws| && i < |ws|
    requires forall k :: 0 <= k < |ws| ==> |cells[k]| <= ws[k]
    ensures ColumnStart(ws, i) + ws[i] <= |CellLine(ws, cells)|
    ensures CellLine(ws, cells)[ColumnStart(ws, i)..ColumnStart(ws, i) + |cells[i]|] == cells[i]
    ensures forall k :: ColumnStart(ws, i) + |cells[i]| <= k < ColumnStart(ws, i) + ws[i] ==>
      CellLine(ws, cells)[k] == ' '
  {
    SlotPlacement(ws, cells, i);
    var slot := PadRight(cells[i], ws[i]);
    SliceWithin(CellLine(ws, cells), ColumnStart(ws, i), slot, 0, |cells[i]|);
    SliceWithin(CellLine(ws, cells), ColumnStart(ws, i), slot, |cells[i]|, ws[i]);
  }

  /** The separator has a dash under every position of column `i`. */
  lemma SepPlacement(ws: seq<nat>, i: nat)
    requires i < |ws|
    ensures ColumnStart(ws, i) + ws[i] <= |SepLine(ws)|
    ensures forall k :: ColumnStart(ws, i) <= k < ColumnStart(ws, i) + ws[i] ==> SepLine(ws)[k] == '-'
  {
    var dashes := seq(|ws|, j requires 0 <= j < |ws| => Repeat('-', ws[j]));
    var joined := Join(dashes, "-+-");
    JoinPiece(dashes, "-+-", i);
    PrefixLengthIsSum(dashes, ws, i);
    var start := PieceStart(dashes, "-+-", i);
    assert start + 2 == ColumnStart(ws, i);
    var line := SepLine(ws);
    assert line[2..2 + |joined|] == joined;
    SliceWithin(line, 2, joined, start, start + ws[i]);
    SliceWithin(joined, start, dashes[i], 0, ws[i]);
  }

  /** The number of caption lines `pretty_print` prints: one when the caption
      is truthy and asked for. */
  function CaptionLines(t: Table, showCaption: bool): nat {
    if HasCaption(t) && showCaption then 1 else 0
  }

  /** `line` shows `cell` left-aligned in the `w` positions from `s`: the
      cell itself, never cut, then spaces. */
  predicate LeftAligned(line: string, s: nat, w: nat, cell: string)
  {
    s + w <= |line| && |cell| <= w && line[s..s + |cell|] == cell &&
    forall k :: s + |cell| <= k < s + w ==> line[k] == ' '
  }

  /** `CellPlacement`, stated with `LeftAligned`. */
  lemma CellAligned(ws: seq<nat>, cells: seq<string>, i: nat)
    requires |cells| >= |ws| && i < |ws|
    requires forall k :: 0 <= k < |ws| ==> |cells[k]| <= ws[k]
    ensures LeftAligned(CellLine(ws, cells), ColumnStart(ws, i), ws[i], cells[i])
  {
    CellPlacement(ws, cells, i);
  }

  /** The header line of the printed table shows every header left-aligned
      in its column. */
  lemma PrettyPrintHeader(t: Table, showCaption: bool, i: nat)
    requires WellShaped(t) && i < |t.headers|
    ensures CaptionLines(t, showCaption) + 1 < |PrettyPrint(t, showCaption)|
    ensures LeftAligned(PrettyPrint(t, showCaption)[CaptionLines(t, showCaption) + 1],
      ColumnStart(Widths(t), i), Widths(t)[i], t.headers[i])
  {
    var ws := Widths(t);
    var j := CaptionLines(t, showCaption) + 1;
    PrettyPrintLine(t, showCaption, j);
    assert PrettyPrint(t, showCaption)[j] == CellLine(ws, t.headers);
    CellAligned(ws, t.headers, i);
  }

  /** The line of row `r` shows each of its cells left-aligned in its column. */
  lemma PrettyPrintRow(t: Table, showCaption: bool, r: nat, i: nat)
    requires WellShaped(t) && r < |t.rows| && i < |t.headers|
    ensures CaptionLines(t, showCaption) + 3 + r < |PrettyPrint(t, showCaption)|
    ensures LeftAligned(PrettyPrint(t, showCaption)[CaptionLines(t, showCaption) + 3 + r],
      ColumnStart(Widths(t), i), Widths(t)[i], t.rows[r][i])
  {
    RowLine(t, showCaption, r);
    CellAligned(Widths(t), t.rows[r], i);
  }

  /** The printed line of row `r`. */
  lemma RowLine(t: Table, showCaption: bool, r: nat)
    requires WellShaped(t) && r < |t.rows|
    ensures CaptionLines(t, showCaption) + 3 + r < |PrettyPrint(t, showCaption)|
    ensures PrettyPrint(t, showCaption)[CaptionLines(t, showCaption) + 3 + r] == CellLine(Widths(t), t.rows[r])
  {
    FramedRow(t, r);
    PrintedFramed(t, showCaption, 3 + r);
  }

  lemma FramedRow(t: Table, r: nat)
    requires WellShaped(t) && r < |t.rows|
    ensures Framed(Widths(t), t.headers, t.rows)[3 + r] == CellLine(Widths(t), t.rows[r])
  {
  }

  /** Line `k` of the framed table is printed after the caption lines. */
  lemma PrintedFramed(t: Table, showCaption: bool, k: nat)
    requires WellShaped(t) && k < |t.rows| + 4
    ensures CaptionLines(t, showCaption) + k < |PrettyPrint(t, showCaption)|
    ensures PrettyPrint(t, showCaption)[CaptionLines(t, showCaption) + k] == Framed(Widths(t), t.headers, t.rows)[k]
  {
    if HasCaption(t) && showCaption {
      PrettyPrintLine(t, showCaption, 1 + k);
    } else {
      PrettyPrintLine(t, showCaption, k);
    }
  }

  /** The three separator lines below the caption (`j` is the first, the
      third or the last line) have dashes across every column. */
  lemma PrettyPrintRule(t: Table, showCaption: bool, j: int, i: nat)
    requires WellShaped(t) && i < |t.headers|
    requires var c := CaptionLines(t, showCaption);
      j == c || j == c + 2 || j == |PrettyPrint(t, showCaption)| - 1
    ensures var line := PrettyPrint(t, showCaption)[j];
      var s := ColumnStart(Widths(t), i);
      s + Widths(t)[i] <= |line| && forall k :: s <= k < s + Widths(t)[i] ==> line[k] == '-'
  {
    PrettyPrintLine(t, showCaption, j);
    SepPlacement(Widths(t), i);
  }

  /** With at least one column, each framed line is `sum(widths) + 3n + 1`
      long when the cells fit their widths. */
  lemma FramedLineLength(ws: seq<nat>, headers: seq<string>, rows: seq<seq<string>>, k: nat)
    requires |ws| >= 1 && |headers| >= |ws| && forall r :: 0 <= r < |rows| ==> |rows[r]| >= |ws|
    requires forall i :: 0 <= i < |ws| ==> |headers[i]| <= ws[i]
    requires forall r, i :: 0 <= r < |rows| && 0 <= i < |ws| ==> |rows[r][i]| <= ws[i]
    requires k < |rows| + 4
    ensures |Framed(ws, headers, rows)[k]| == Sum(ws) + 3 * |ws| + 1
  {
    if k == 0 || k == 2 || k == |rows| + 3 {
      SepLineLength(ws);
    } else if k == 1 {
      CellLineLength(ws, headers);
    } else {
      CellLineLength(ws, rows[k - 3]);
    }
  }

  /** With at least one column, every line but the caption has the same
      length. */
  lemma PrettyPrintAligned(t: Table, showCaption: bool)
    requires WellShaped(t) && |t.headers| >= 1
    ensures var lines := PrettyPrint(t, showCaption);
      var c := if HasCaption(t) && showCaption then 1 else 0;
      forall k :: c <= k < |lines| ==> |lines[k]| == Sum(Widths(t)) + 3 * |t.headers| + 1
  {
    var lines := PrettyPrint(t, showCaption);
    var c := if HasCaption(t) && showCaption then 1 else 0;
    forall k | c <= k < |lines|
      ensures |lines[k]| == Sum(Widths(t)) + 3 * |t.headers| + 1
    {
      PrettyPrintLineLength(t, showCaption, k);
    }
  }

  /** One line below the caption has the common length. */
  lemma PrettyPrintLineLength(t: Table, showCaption: bool, k: int)
    requires WellShaped(t) && |t.headers| >= 1
    requires (if HasCaption(t) && showCaption then 1 else 0) <= k < |PrettyPrint(t, showCaption)|
    ensures |PrettyPrint(t, showCaption)[k]| == Sum(Widths(t)) + 3 * |t.headers| + 1
  {
    PrettyPrintLine(t, showCaption, k);
    TableLineLength(t, k - (if HasCaption(t) && showCaption then 1 else 0));
  }

  /** Past its first part, a concatenation indexes into its second part. */
  lemma ConcatIndex<T>(a: seq<T>, b: seq<T>)
    ensures |a + b| == |a| + |b|
    ensures forall k :: |a| <= k < |a| + |b| ==> (a + b)[k] == b[k - |a|]
  {
  }

  /** `FramedLineLength` for the column widths of a table. */
  lemma TableLineLength(t: Table, k: nat)
    requires WellShaped(t) && |t.headers| >= 1 && k < |t.rows| + 4
    ensures |Framed(Widths(t), t.headers, t.rows)[k]| == Sum(Widths(t)) + 3 * |t.headers| + 1
  {
    FramedLineLength(Widths(t), t.headers, t.rows, k);
  }

  /** Below the caption, line `k` is line `k - c` of the framed table. */
  lemma PrettyPrintLine(t: Table, showCaption: bool, k: int)
    requires WellShaped(t)
    requires (if HasCaption(t) && showCaption then 1 else 0) <= k < |PrettyPrint(t, showCaption)|
    ensures PrettyPrint(t, showCaption)[k] ==
      Framed(Widths(t), t.headers, t.rows)[k - (if HasCaption(t) && showCaption then 1 else 0)]
  {
  }
}
