/** The rota ledger of `python/experiments/support.py`: the rows
    `DATE,ONCALL,ONHOLS,UNAVAILABLE` that `read_facts_from_file` turns into
    facts and `write_facts_to_file` prints back. Cells are split on commas
    without CSV quoting. */
module RotaLedger {
  import opened Wrappers
  import opened Strings
  import opened Calendar
  import opened DateText
  import opened Rota

  // ---------------------------------------------------------------------------
  // Reading
  // ---------------------------------------------------------------------------

  /** The facts of an ONHOLS or UNAVAILABLE cell: one per piece of
      `cell.split(' ')`. There is always at least one, an empty cell names
      the person `""`, and no name holds a space. */
  function CellFacts(d: Day, cell: string): (r: set<Fact>)
    ensures forall n :: Fact(d, Named(n)) in r <==> n in Split(cell, " ")
    ensures forall f :: f in r ==> f.date == d && f.who.Named? && ' ' !in f.who.name
    ensures r != {}
    ensures cell == "" ==> r == {Fact(d, Named(""))}
  {
    var pieces := Split(cell, " ");
    forall n | n in pieces ensures ' ' !in n {
      ContainsChar(n, ' ');
    }
    assert Fact(d, Named(pieces[0])) in set n | n in pieces :: Fact(d, Named(n));
    assert cell == "" ==> pieces == [""] by {
      if cell == "" {
        assert FindFrom(cell, " ", 0).None?;
      }
    }
    set n | n in pieces :: Fact(d, Named(n))
  }

  /** Space-free names joined by single spaces give one fact per name. */
  lemma CellFactsOfJoin(d: Day, names: seq<string>)
    requires |names| >= 1 && forall k :: 0 <= k < |names| ==> ' ' !in names[k]
    ensures CellFacts(d, Join(names, " ")) == set n | n in names :: Fact(d, Named(n))
  {
    SplitJoin(names, ' ');
  }

  /** A line the reader skips: not four cells, a comment, or the header. */
  predicate Skipped(row: seq<string>) {
    |row| != 4 || StartsWith(row[0], "#") || row[0] == "DATE"
  }

  /** A data line whose date cell is not an existing `YYYYMMDD` date. */
  predicate BadDate(line: string) {
    var row := Split(line, ",");
    !Skipped(row) && Parse(row[0]).None?
  }

  /** `line` is a data line dated `d` whose ONCALL cell is the non-empty `n`. */
  predicate OncallCell(line: string, d: Day, n: string) {
    var row := Split(line, ",");
    !Skipped(row) && Parse(row[0]) == Some(d) && n != "" && row[1] == n
  }

  /** `line` is a data line dated `d` whose cell `col` has the piece `n`. */
  predicate ListCell(line: string, col: nat, d: Day, n: string) {
    var row := Split(line, ",");
    !Skipped(row) && col < 4 && Parse(row[0]) == Some(d) && n in Split(row[col], " ")
  }

  /** One line of the ledger. A skipped line changes nothing; a data line
      whose date is not an existing `YYYYMMDD` date fails with that cell;
      otherwise the line adds its on-call fact when the ONCALL cell is not
      empty, and one fact per space-separated piece of the ONHOLS and
      UNAVAILABLE cells, and nothing else. */
  function ReadRow(F: Facts, line: string): (r: Result<Facts, string>)
    ensures Skipped(Split(line, ",")) ==> r == Success(F)
    ensures r.Failure? <==> BadDate(line)
    ensures r.Failure? ==> r.error == Split(line, ",")[0]
    ensures r.Success? ==> forall f :: f in r.value.oncall <==>
      f in F.oncall || (f.who.Named? && OncallCell(line, f.date, f.who.name))
    ensures r.Success? ==> forall f :: f in r.value.onhols <==>
      f in F.onhols || (f.who.Named? && ListCell(line, 2, f.date, f.who.name))
    ensures r.Success? ==> forall f :: f in r.value.unavailable <==>
      f in F.unavailable || (f.who.Named? && ListCell(line, 3, f.date, f.who.name))
    ensures r.Success? && Recorded(F) ==> Recorded(r.value)
  {
    var row := Split(line, ",");
    if Skipped(row) then Success(F)
    else
      match Parse(row[0])
      case None => Failure(row[0])
      case Some(d) =>
        Success(Facts(
          if row[1] != "" then F.oncall + {Fact(d, Named(row[1]))} else F.oncall,
          F.onhols + CellFacts(d, row[2]),
          F.unavailable + CellFacts(d, row[3])))
  }

  /** The lines in order; the first bad date stops the reading. */
  function ReadLines(F: Facts, lines: seq<string>): (r: Result<Facts, string>)
    ensures r.Success? && Recorded(F) ==> Recorded(r.value)
    decreases |lines|
  {
    if |lines| == 0 then Success(F)
    else
      match ReadRow(F, lines[0])
      case Failure(e) => Failure(e)
      case Success(F') => ReadLines(F', lines[1..])
  }

  /** Line `k` is the first data line with a bad date. */
  predicate FirstBadDate(lines: seq<string>, k: int) {
    0 <= k < |lines| && BadDate(lines[k]) && forall j :: 0 <= j < k ==> !BadDate(lines[j])
  }

  /** `read_facts_from_file` over a whole text: it fails exactly when some
      data line has a bad date, with the first such date cell; otherwise the
      store holds the facts it had and exactly the facts the data lines
      name. */
  lemma {:induction false} ReadLinesMeans(F: Facts, lines: seq<string>)
    ensures var r := ReadLines(F, lines);
      (r.Failure? <==> exists k :: 0 <= k < |lines| && BadDate(lines[k])) &&
      (r.Failure? ==> exists k :: FirstBadDate(lines, k) && r.error == Split(lines[k], ",")[0]) &&
      (r.Success? ==> forall f :: f in r.value.oncall <==>
         f in F.oncall || (f.who.Named? && exists k :: 0 <= k < |lines| && OncallCell(lines[k], f.date, f.who.name))) &&
      (r.Success? ==> forall f :: f in r.value.onhols <==>
         f in F.onhols || (f.who.Named? && exists k :: 0 <= k < |lines| && ListCell(lines[k], 2, f.date, f.who.name))) &&
      (r.Success? ==> forall f :: f in r.value.unavailable <==>
         f in F.unavailable || (f.who.Named? && exists k :: 0 <= k < |lines| && ListCell(lines[k], 3, f.date, f.who.name)))
    decreases |lines|
  {
    if |lines| > 0 {
      var tail := lines[1..];
      assert forall k :: 1 <= k < |lines| ==> lines[k] == tail[k - 1];
      match ReadRow(F, lines[0])
      case Failure(e) =>
        assert BadDate(lines[0]);
      case Success(G) =>
        assert !BadDate(lines[0]);
        ReadLinesMeans(G, tail);
        var r := ReadLines(F, lines);
        assert r == ReadLines(G, tail);
        if r.Failure? {
          var k :| FirstBadDate(tail, k) && r.error == Split(tail[k], ",")[0];
          FirstBadShift(lines, k);
        } else {
          NoBadShift(lines);
          OncallShift(F, G, lines, r.value);
          ListShift(F.onhols, G.onhols, lines, 2, r.value.onhols);
          ListShift(F.unavailable, G.unavailable, lines, 3, r.value.unavailable);
        }
    }
  }

  /** The first bad date of the rest is the first of all lines when the
      first line is fine. */
  lemma FirstBadShift(lines: seq<string>, k: int)
    requires |lines| > 0 && !BadDate(lines[0]) && FirstBadDate(lines[1..], k)
    ensures FirstBadDate(lines, k + 1) && lines[k + 1] == lines[1..][k]
  {
    forall j | 0 <= j < k + 1 ensures !BadDate(lines[j]) {
      if j > 0 {
        assert lines[j] == lines[1..][j - 1];
      }
    }
  }

  /** No bad date in the first line nor in the rest is none at all. */
  lemma NoBadShift(lines: seq<string>)
    requires |lines| > 0 && !BadDate(lines[0])
    requires forall k :: 0 <= k < |lines[1..]| ==> !BadDate(lines[1..][k])
    ensures forall k :: 0 <= k < |lines| ==> !BadDate(lines[k])
  {
    forall k | 0 <= k < |lines| ensures !BadDate(lines[k]) {
      if k > 0 {
        assert lines[k] == lines[1..][k - 1];
      }
    }
  }

  /** The on-call facts after the first line and after the rest. */
  lemma OncallShift(F: Facts, G: Facts, lines: seq<string>, H: Facts)
    requires |lines| > 0
    requires forall f :: f in G.oncall <==> f in F.oncall || (f.who.Named? && OncallCell(lines[0], f.date, f.who.name))
    requires forall f :: f in H.oncall <==>
      f in G.oncall || (f.who.Named? && exists k :: 0 <= k < |lines[1..]| && OncallCell(lines[1..][k], f.date, f.who.name))
    ensures forall f :: f in H.oncall <==>
      f in F.oncall || (f.who.Named? && exists k :: 0 <= k < |lines| && OncallCell(lines[k], f.date, f.who.name))
  {
    forall f ensures f in H.oncall <==>
      f in F.oncall || (f.who.Named? && exists k :: 0 <= k < |lines| && OncallCell(lines[k], f.date, f.who.name))
    {
      if f.who.Named? && exists k :: 0 <= k < |lines| && OncallCell(lines[k], f.date, f.who.name) {
        var k :| 0 <= k < |lines| && OncallCell(lines[k], f.date, f.who.name);
        if k > 0 {
          assert lines[1..][k - 1] == lines[k];
        }
      }
      if f.who.Named? && exists k :: 0 <= k < |lines[1..]| && OncallCell(lines[1..][k], f.date, f.who.name) {
        var k :| 0 <= k < |lines[1..]| && OncallCell(lines[1..][k], f.date, f.who.name);
        assert lines[k + 1] == lines[1..][k];
      }
    }
  }

  /** The facts of one list column after the first line and after the rest. */
  lemma ListShift(F: set<Fact>, G: set<Fact>, lines: seq<string>, col: nat, H: set<Fact>)
    requires |lines| > 0
    requires forall f :: f in G <==> f in F || (f.who.Named? && ListCell(lines[0], col, f.date, f.who.name))
    requires forall f :: f in H <==>
      f in G || (f.who.Named? && exists k :: 0 <= k < |lines[1..]| && ListCell(lines[1..][k], col, f.date, f.who.name))
    ensures forall f :: f in H <==>
      f in F || (f.who.Named? && exists k :: 0 <= k < |lines| && ListCell(lines[k], col, f.date, f.who.name))
  {
    forall f ensures f in H <==>
      f in F || (f.who.Named? && exists k :: 0 <= k < |lines| && ListCell(lines[k], col, f.date, f.who.name))
    {
      if f.who.Named? && exists k :: 0 <= k < |lines| && ListCell(lines[k], col, f.date, f.who.name) {
        var k :| 0 <= k < |lines| && ListCell(lines[k], col, f.date, f.who.name);
        if k > 0 {
          assert lines[1..][k - 1] == lines[k];
        }
      }
      if f.who.Named? && exists k :: 0 <= k < |lines[1..]| && ListCell(lines[1..][k], col, f.date, f.who.name) {
        var k :| 0 <= k < |lines[1..]| && ListCell(lines[1..][k], col, f.date, f.who.name);
        assert lines[k + 1] == lines[1..][k];
      }
    }
  }

  // ---------------------------------------------------------------------------
  // Writing
  // ---------------------------------------------------------------------------

  /** The five comment lines and the blank-ish line printed before the header,
      then the header row. */
  const Preamble: seq<string> := ["# ...", "# ...", "# ...", "# ...", "# ...", "    ", "DATE,ONCALL,ONHOLS,UNAVAILABLE"]

  /** The persons `rel` records on day `d`. */
  function NamesOn(rel: set<Fact>, d: Day): (r: set<string>)
    ensures forall n :: n in r <==> Fact(d, Named(n)) in rel
  {
    set f | f in rel && f.date == d && f.who.Named? :: f.who.name
  }

  /** `get_list`: the persons of `d`, sorted and joined with single spaces. */
  function NameList(rel: set<Fact>, d: Day): string {
    Join(SortedSet(NamesOn(rel, d)), " ")
  }

  /** The CSV row of one on-call fact. */
  function Row(F: Facts, d: Day, name: string): string
    requires d >= 0
  {
    Format(d) + "," + name + "," + NameList(F.onhols, d) + "," + NameList(F.unavailable, d)
  }

  lemma {:induction false} MinOf(s: set<Day>) returns (m: Day)
    requires s != {}
    ensures m in s && forall x :: x in s ==> m <= x
    decreases |s|
  {
    assert (forall x :: x !in s) ==> s == {};
    var y :| y in s;
    var rest := s - {y};
    assert forall x :: x in s ==> x in rest || x == y;
    if rest == {} {
      m := y;
    } else {
      var m' := MinOf(rest);
      m := if y < m' then y else m';
    }
  }

  lemma MinExists(s: set<Day>)
    requires s != {}
    ensures exists m :: m in s && forall x :: x in s ==> m <= x
  {
    var m := MinOf(s);
  }

  /** The days of `s`, each once, in increasing order. */
  function SortedDays(s: set<Day>): (r: seq<Day>)
    ensures forall i, j :: 0 <= i < j < |r| ==> r[i] < r[j]
    ensures forall x :: x in r <==> x in s
    ensures |r| == |s|
    decreases |s|
  {
    if s == {} then []
    else
      MinExists(s);
      var m :| m in s && forall x :: x in s ==> m <= x;
      var rest := SortedDays(s - {m});
      MinBeforeDays(s, m, rest);
      ConsMembers(s, m, rest);
      [m] + rest
  }

  lemma ConsMembers(s: set<Day>, m: Day, rest: seq<Day>)
    requires m in s && forall x :: x in rest <==> x in s - {m}
    requires |rest| == |s - {m}|
    ensures forall x :: x in [m] + rest <==> x in s
    ensures |[m] + rest| == |s|
  {
    assert |s - {m}| == |s| - 1;
  }

  lemma MinBeforeDays(s: set<Day>, m: Day, rest: seq<Day>)
    requires m in s && forall x :: x in s ==> m <= x
    requires (forall i, j :: 0 <= i < j < |rest| ==> rest[i] < rest[j]) && forall x :: x in rest <==> x in s - {m}
    ensures forall i, j :: 0 <= i < j < |[m] + rest| ==> ([m] + rest)[i] < ([m] + rest)[j]
  {
    forall i, j | 0 <= i < j < |[m] + rest| ensures ([m] + rest)[i] < ([m] + rest)[j] {
      if i == 0 {
        assert rest[j - 1] in s - {m};
      } else {
        assert ([m] + rest)[i] == rest[i - 1] && ([m] + rest)[j] == rest[j - 1];
      }
    }
  }

  /** An on-call pair `(date, person)` as the writer's loop sees it. */
  datatype Duty = Duty(date: Day, name: string)

  /** Python's order on `(date, person)` tuples: by date, then by person. */
  predicate Before(a: Duty, b: Duty) {
    a.date < b.date || (a.date == b.date && Less(a.name, b.name))
  }

  predicate DutiesAscending(ds: seq<Duty>) {
    forall i, j :: 0 <= i < j < |ds| ==> Before(ds[i], ds[j])
  }

  lemma BeforeAsymmetric(a: Duty, b: Duty)
    requires Before(a, b)
    ensures !Before(b, a) && a != b
  {
    if a.date == b.date {
      LessAsymmetric(a.name, b.name);
    }
  }

  /** The pairs of one day: the day with each name. */
  function Block(d: Day, names: seq<string>): (ds: seq<Duty>)
    ensures |ds| == |names| && forall i :: 0 <= i < |names| ==> ds[i] == Duty(d, names[i])
  {
    seq(|names|, i requires 0 <= i < |names| => Duty(d, names[i]))
  }

  lemma BlockThenRest(d: Day, names: seq<string>, rest: seq<Duty>)
    requires StrictlyAscending(names)
    requires DutiesAscending(rest) && forall x :: x in rest ==> x.date > d
    ensures DutiesAscending(Block(d, names) + rest)
  {
    var b := Block(d, names);
    forall i, j | 0 <= i < j < |b + rest| ensures Before((b + rest)[i], (b + rest)[j]) {
      if j < |b| {
        assert (b + rest)[i] == Duty(d, names[i]) && (b + rest)[j] == Duty(d, names[j]);
      } else if i < |b| {
        assert (b + rest)[j] == rest[j - |b|] && rest[j - |b|] in rest;
      } else {
        assert (b + rest)[i] == rest[i - |b|] && (b + rest)[j] == rest[j - |b|];
      }
    }
  }

  /** The on-call pairs of the days `days`, day after day, each day's persons
      in sorted order. */
  function DutiesFrom(F: Facts, days: seq<Day>): (ds: seq<Duty>)
    requires forall i, j :: 0 <= i < j < |days| ==> days[i] < days[j]
    ensures forall x :: x in ds <==> x.date in days && Fact(x.date, Named(x.name)) in F.oncall
    ensures DutiesAscending(ds)
    decreases |days|
  {
    if |days| == 0 then []
    else
      var names := SortedSet(NamesOn(F.oncall, days[0]));
      var rest := DutiesFrom(F, days[1..]);
      LaterDays(days);
      BlockThenRest(days[0], names, rest);
      DaysHeadTail(days);
      Block(days[0], names) + rest
  }

  /** In an ascending sequence of days, every later day follows the first. */
  lemma LaterDays(days: seq<Day>)
    requires |days| > 0
    requires forall i, j :: 0 <= i < j < |days| ==> days[i] < days[j]
    ensures forall x :: x in days[1..] ==> x > days[0]
  {
    forall x | x in days[1..] ensures x > days[0] {
      var i :| 0 <= i < |days[1..]| && days[1..][i] == x;
      assert days[i + 1] == x;
    }
  }

  /** A day is in `days` if it is the first or one of the rest. */
  lemma DaysHeadTail(days: seq<Day>)
    requires |days| > 0
    ensures forall x :: x in days <==> x == days[0] || x in days[1..]
  {
    assert days == [days[0]] + days[1..];
  }

  /** `sorted(oncall_date(Date) & is_oncall(Date, Person))`: the on-call facts
      on real dates as `(date, person)` pairs, each once, ascending. */
  function Duties(F: Facts): (ds: seq<Duty>)
    ensures DutiesAscending(ds)
    ensures forall x :: x in ds <==> x.date != DummyDate && Fact(x.date, Named(x.name)) in F.oncall
  {
    var days := SortedDays(OncallDates(F));
    DutiesFrom(F, days)
  }

  /** Two ascending pair lists with the same pairs are equal. */
  lemma {:induction false} DutiesUnique(a: seq<Duty>, b: seq<Duty>)
    requires DutiesAscending(a) && DutiesAscending(b)
    requires forall x :: x in a <==> x in b
    ensures a == b
    decreases |a|
  {
    if |a| > 0 {
      assert a[0] in b;
    }
    if |b| > 0 {
      assert b[0] in a;
    }
    if |a| > 0 {
      var i :| 0 <= i < |b| && b[i] == a[0];
      var j :| 0 <= j < |a| && a[j] == b[0];
      if i > 0 {
        assert Before(b[0], a[0]);
        if j > 0 {
          assert Before(a[0], b[0]);
        }
        BeforeAsymmetric(b[0], a[0]);
      } else if j > 0 {
        assert Before(a[0], b[0]);
        BeforeAsymmetric(a[0], b[0]);
      }
      assert a[0] == b[0];
      forall x ensures x in a[1..] <==> x in b[1..] {
        if x in a[1..] {
          var k :| 1 <= k < |a| && a[k] == x;
          BeforeAsymmetric(a[0], a[k]);
          assert x in b;
        }
        if x in b[1..] {
          var k :| 1 <= k < |b| && b[k] == x;
          BeforeAsymmetric(b[0], b[k]);
          assert x in a;
        }
      }
      DutiesUnique(a[1..], b[1..]);
      assert a == [a[0]] + a[1..] && b == [b[0]] + b[1..];
    }
  }

  /** The on-call pairs of a recorded store are on real dates. */
  lemma DutiesDated(F: Facts)
    requires Recorded(F)
    ensures forall k :: 0 <= k < |Duties(F)| ==> Duties(F)[k].date >= 0
  {
    var ds := Duties(F);
    forall k | 0 <= k < |ds| ensures ds[k].date >= 0 {
      assert ds[k] in ds;
      assert Fact(ds[k].date, Named(ds[k].name)) in F.oncall;
    }
  }

  /** The rows of the pairs `ds`, in their order. */
  function RowsOf(F: Facts, ds: seq<Duty>): (lines: seq<string>)
    requires forall k :: 0 <= k < |ds| ==> ds[k].date >= 0
    ensures |lines| == |ds| && forall k :: 0 <= k < |ds| ==> lines[k] == Row(F, ds[k].date, ds[k].name)
  {
    seq(|ds|, k requires 0 <= k < |ds| => Row(F, ds[k].date, ds[k].name))
  }

  lemma AfterPrefix(pre: seq<string>, body: seq<string>)
    ensures (pre + body)[..|pre|] == pre
    ensures forall k :: 0 <= k < |body| ==> (pre + body)[|pre| + k] == body[k]
  {
  }

  /** `write_facts_to_file`: the preamble and header, then one row per
      on-call fact on a real date, in ascending `(date, person)` order (see
      `Duties`), each row carrying the sorted holiday and unavailable persons
      of its date. */
  function WriteFacts(F: Facts): (lines: seq<string>)
    requires Recorded(F)
    ensures |lines| == |Preamble| + |Duties(F)| && lines[..|Preamble|] == Preamble
    ensures forall k :: 0 <= k < |Duties(F)| ==> Duties(F)[k].date >= 0
    ensures forall k :: 0 <= k < |Duties(F)| ==>
      lines[|Preamble| + k] == Row(F, Duties(F)[k].date, Duties(F)[k].name)
  {
    DutiesDated(F);
    var body := RowsOf(F, Duties(F));
    AfterPrefix(Preamble, body);
    Preamble + body
  }

  // ---------------------------------------------------------------------------
  // Round trip
  // ---------------------------------------------------------------------------

  /** A cell list the writer reproduces: strictly sorted names without commas
      or spaces (a single `""` stands for the empty cell). */
  predicate CellList(names: seq<string>) {
    |names| >= 1 && StrictlyAscending(names) &&
    forall k :: 0 <= k < |names| ==> ',' !in names[k] && ' ' !in names[k]
  }

  /** One ledger row: date, on-call person, holiday and unavailable persons. */
  datatype LedgerRow = LedgerRow(date: Day, oncall: string, onhols: seq<string>, unavailable: seq<string>)

  /** A row the writer can produce: an existing real date, a non-empty
      on-call person without commas, and sorted cell lists. */
  predicate WellFormed(r: LedgerRow) {
    InRange(r.date) && r.date != DummyDate && r.oncall != "" && ',' !in r.oncall &&
    CellList(r.onhols) && CellList(r.unavailable)
  }

  /** A ledger as the writer prints it: well-formed rows, one per date, dates
      increasing. */
  predicate Canonical(rows: seq<LedgerRow>) {
    (forall k :: 0 <= k < |rows| ==> WellFormed(rows[k])) &&
    forall i, j :: 0 <= i < j < |rows| ==> rows[i].date < rows[j].date
  }

  function LineOf(r: LedgerRow): string
    requires r.date >= 0
  {
    Format(r.date) + "," + r.oncall + "," + Join(r.onhols, " ") + "," + Join(r.unavailable, " ")
  }

  function LinesOf(rows: seq<LedgerRow>): (lines: seq<string>)
    requires forall k :: 0 <= k < |rows| ==> rows[k].date >= 0
    ensures |lines| == |rows| && forall k :: 0 <= k < |rows| ==> lines[k] == LineOf(rows[k])
  {
    seq(|rows|, k requires 0 <= k < |rows| => LineOf(rows[k]))
  }

  lemma DigitsHaveNoComma(s: string)
    requires AllDigits(s)
    ensures ',' !in s
  {
    forall i | 0 <= i < |s| ensures s[i] != ',' {
      assert IsDigit(s[i]);
    }
  }

  lemma JoinFour(a: string, b: string, c: string, e: string, sep: string)
    ensures Join([a, b, c, e], sep) == a + sep + b + sep + c + sep + e
  {
    assert [a, b, c, e][1..] == [b, c, e];
    assert [b, c, e][1..] == [c, e];
    assert [c, e][1..] == [e];
    assert Join([c, e], sep) == c + sep + e;
    assert Join([b, c, e], sep) == b + sep + (c + sep + e);
    assert Join([a, b, c, e], sep) == a + sep + (b + sep + (c + sep + e));
  }

  /** A written line splits into its four cells. */
  lemma SplitLedgerLine(r: LedgerRow)
    requires WellFormed(r)
    ensures Split(LineOf(r), ",") == [Format(r.date), r.oncall, Join(r.onhols, " "), Join(r.unavailable, " ")]
  {
    var parts := [Format(r.date), r.oncall, Join(r.onhols, " "), Join(r.unavailable, " ")];
    DigitsHaveNoComma(Format(r.date));
    JoinAvoids(r.onhols, " ", ',');
    JoinAvoids(r.unavailable, " ", ',');
    JoinFour(Format(r.date), r.oncall, Join(r.onhols, " "), Join(r.unavailable, " "), ",");
    SplitJoin(parts, ',');
  }

  /** What the reader finds in a written line: its date, its on-call person
      and its listed persons, and nothing else. */
  lemma LineCells(r: LedgerRow)
    requires WellFormed(r)
    ensures !BadDate(LineOf(r))
    ensures forall d, n :: OncallCell(LineOf(r), d, n) <==> d == r.date && n == r.oncall
    ensures forall d, n :: ListCell(LineOf(r), 2, d, n) <==> d == r.date && n in r.onhols
    ensures forall d, n :: ListCell(LineOf(r), 3, d, n) <==> d == r.date && n in r.unavailable
  {
    SplitLedgerLine(r);
    DateNotSkipped(Format(r.date));
    ParseFormat(r.date);
    SplitJoin(r.onhols, ' ');
    SplitJoin(r.unavailable, ' ');
  }

  /** A date cell is neither a comment nor the header's `DATE`. */
  lemma DateNotSkipped(date: string)
    requires |date| > 0 && AllDigits(date)
    ensures !StartsWith(date, "#") && date != "DATE"
  {
    assert IsDigit(date[0]);
    assert date[..1][0] == date[0];
  }

  /** A line without a comma is one cell, which the reader skips. */
  lemma NoCommaSkipped(line: string)
    requires ',' !in line
    ensures Skipped(Split(line, ","))
  {
    SplitJoin([line], ',');
    assert Join([line], ",") == line;
  }

  /** The first cell of a line runs up to its first comma. */
  lemma FirstCell(s: string, i: nat)
    requires i < |s| && s[i] == ',' && ',' !in s[..i]
    ensures Split(s, ",")[0] == s[..i]
  {
    assert s[i..i + 1] == [s[i]];
    NoCommaBefore(s, i);
    FindFirst(s, ",", i);
    SplitAtFirst(s, ",", i);
  }

  /** A prefix without a comma holds no occurrence of `","`. */
  lemma NoCommaBefore(s: string, i: nat)
    requires i <= |s| && ',' !in s[..i]
    ensures forall j: nat :: j < i ==> !OccursAt(s, ",", j)
  {
    forall j: nat | j < i ensures !OccursAt(s, ",", j) {
      assert s[j] == s[..i][j];
      assert s[j..j + 1][0] == s[j];
    }
  }

  /** The header line's first cell is `DATE`, so the reader skips it. */
  lemma HeaderSkipped()
    ensures Skipped(Split(Preamble[6], ","))
  {
    var s := Preamble[6];
    assert s[4] == ',' && s[..4] == "DATE";
    FirstCell(s, 4);
  }

  /** The reader skips every line of the preamble. */
  lemma PreambleSkipped(k: nat)
    requires k < |Preamble|
    ensures Skipped(Split(Preamble[k], ","))
  {
    if k < 5 {
      assert Preamble[k] == "# ...";
      NoCommaSkipped("# ...");
    } else if k == 5 {
      assert Preamble[k] == "    ";
      NoCommaSkipped("    ");
    } else {
      HeaderSkipped();
    }
  }

  /** What the reader finds in line `k` of a written canonical ledger. */
  lemma LedgerLine(rows: seq<LedgerRow>, k: nat)
    requires Canonical(rows) && k < |Preamble| + |rows|
    ensures !BadDate((Preamble + LinesOf(rows))[k])
    ensures k < |Preamble| ==> forall d, n ::
      !OncallCell((Preamble + LinesOf(rows))[k], d, n) &&
      !ListCell((Preamble + LinesOf(rows))[k], 2, d, n) &&
      !ListCell((Preamble + LinesOf(rows))[k], 3, d, n)
    ensures k >= |Preamble| ==> (Preamble + LinesOf(rows))[k] == LineOf(rows[k - |Preamble|])
  {
    if k < |Preamble| {
      assert (Preamble + LinesOf(rows))[k] == Preamble[k];
      PreambleSkipped(k);
    } else {
      assert (Preamble + LinesOf(rows))[k] == LinesOf(rows)[k - |Preamble|];
      LineCells(rows[k - |Preamble|]);
    }
  }

  /** Reading a canonical ledger into the seeded store succeeds, keeps the
      store recorded, and yields what `ReadLinesMeans` promises. */
  lemma ReadLedgerLines(rows: seq<LedgerRow>) returns (G: Facts)
    requires Canonical(rows)
    ensures ReadLines(Seed, Preamble + LinesOf(rows)) == Success(G)
    ensures Recorded(G)
    ensures forall f :: f in G.oncall <==> (f in Seed.oncall ||
      (f.who.Named? && ReadsOncall(Preamble + LinesOf(rows), f.date, f.who.name)))
    ensures forall f :: f in G.onhols <==> (f in Seed.onhols ||
      (f.who.Named? && ReadsList(Preamble + LinesOf(rows), 2, f.date, f.who.name)))
    ensures forall f :: f in G.unavailable <==> (f in Seed.unavailable ||
      (f.who.Named? && ReadsList(Preamble + LinesOf(rows), 3, f.date, f.who.name)))
  {
    var lines := Preamble + LinesOf(rows);
    forall k | 0 <= k < |lines| ensures !BadDate(lines[k]) {
      LedgerLine(rows, k);
    }
    ReadLinesMeans(Seed, lines);
    G := ReadLines(Seed, lines).value;
    assert Recorded(Seed);
  }

  /** A data line of a canonical ledger with on-call person `n` on `d` is
      the line of a row with that date and person. */
  lemma OncallFromLine(rows: seq<LedgerRow>, k: nat, d: Day, n: string)
    requires Canonical(rows) && k < |Preamble| + |rows|
    requires OncallCell((Preamble + LinesOf(rows))[k], d, n)
    ensures k >= |Preamble| && rows[k - |Preamble|].date == d && rows[k - |Preamble|].oncall == n
    ensures RowOncall(rows, d, n)
  {
    LedgerLine(rows, k);
    LineCells(rows[k - |Preamble|]);
  }

  /** Conversely, the line of each row names its date and person. */
  lemma OncallToLine(rows: seq<LedgerRow>, k: nat)
    requires Canonical(rows) && k < |rows|
    ensures OncallCell((Preamble + LinesOf(rows))[k + |Preamble|], rows[k].date, rows[k].oncall)
    ensures ReadsOncall(Preamble + LinesOf(rows), rows[k].date, rows[k].oncall)
  {
    LedgerLine(rows, k + |Preamble|);
    LineCells(rows[k]);
  }

  /** The same for the holiday (`col` 2) and unavailable (`col` 3) columns. */
  lemma ListFromLine(rows: seq<LedgerRow>, k: nat, col: nat, d: Day, n: string)
    requires Canonical(rows) && k < |Preamble| + |rows| && (col == 2 || col == 3)
    requires ListCell((Preamble + LinesOf(rows))[k], col, d, n)
    ensures k >= |Preamble| && rows[k - |Preamble|].date == d && n in Listed(rows[k - |Preamble|], col)
    ensures RowLists(rows, col, d, n)
  {
    LedgerLine(rows, k);
    LineCells(rows[k - |Preamble|]);
  }

  lemma ListToLine(rows: seq<LedgerRow>, k: nat, col: nat, n: string)
    requires Canonical(rows) && k < |rows| && (col == 2 || col == 3) && n in Listed(rows[k], col)
    ensures ListCell((Preamble + LinesOf(rows))[k + |Preamble|], col, rows[k].date, n)
    ensures ReadsList(Preamble + LinesOf(rows), col, rows[k].date, n)
  {
    LedgerLine(rows, k + |Preamble|);
    LineCells(rows[k]);
  }

  /** A named fact the reader takes from some line of a canonical ledger is
      the on-call fact of one of its rows, and conversely. */
  lemma OncallOfLedger(rows: seq<LedgerRow>, d: Day, n: string)
    requires Canonical(rows)
    ensures ReadsOncall(Preamble + LinesOf(rows), d, n) <==> RowOncall(rows, d, n)
  {
    var lines := Preamble + LinesOf(rows);
    if ReadsOncall(lines, d, n) {
      var k :| 0 <= k < |lines| && OncallCell(lines[k], d, n);
      OncallFromLine(rows, k, d, n);
    }
    if RowOncall(rows, d, n) {
      var k :| 0 <= k < |rows| && rows[k].date == d && rows[k].oncall == n;
      OncallToLine(rows, k);
    }
  }

  /** The same for the holiday (`col` 2) and unavailable (`col` 3) columns. */
  lemma ListOfLedger(rows: seq<LedgerRow>, col: nat, d: Day, n: string)
    requires Canonical(rows) && (col == 2 || col == 3)
    ensures ReadsList(Preamble + LinesOf(rows), col, d, n) <==> RowLists(rows, col, d, n)
  {
    var lines := Preamble + LinesOf(rows);
    if ReadsList(lines, col, d, n) {
      var k :| 0 <= k < |lines| && ListCell(lines[k], col, d, n);
      ListFromLine(rows, k, col, d, n);
    }
    if RowLists(rows, col, d, n) {
      var k :| 0 <= k < |rows| && rows[k].date == d && n in Listed(rows[k], col);
      ListToLine(rows, k, col, n);
    }
  }

  /** The holiday list (`col` 2) or the unavailable list (`col` 3) of a row. */
  function Listed(r: LedgerRow, col: nat): seq<string> {
    if col == 2 then r.onhols else r.unavailable
  }

  /** Some line of `lines` is a data line dated `d` with on-call person `n`. */
  ghost predicate ReadsOncall(lines: seq<string>, d: Day, n: string) {
    exists k :: 0 <= k < |lines| && OncallCell(lines[k], d, n)
  }

  /** Some line of `lines` is a data line dated `d` listing `n` in column `col`. */
  ghost predicate ReadsList(lines: seq<string>, col: nat, d: Day, n: string) {
    exists k :: 0 <= k < |lines| && ListCell(lines[k], col, d, n)
  }

  /** Some row is dated `d` with on-call person `n`. */
  ghost predicate RowOncall(rows: seq<LedgerRow>, d: Day, n: string) {
    exists k :: 0 <= k < |rows| && rows[k].date == d && rows[k].oncall == n
  }

  /** Some row is dated `d` and lists `n` in column `col`. */
  ghost predicate RowLists(rows: seq<LedgerRow>, col: nat, d: Day, n: string) {
    exists k :: 0 <= k < |rows| && rows[k].date == d && n in Listed(rows[k], col)
  }

  /** The named on-call facts of `rel` are exactly the rows' `(date, oncall)`. */
  ghost predicate OncallAs(rows: seq<LedgerRow>, rel: set<Fact>) {
    forall d, n :: Fact(d, Named(n)) in rel <==> RowOncall(rows, d, n)
  }

  /** The named facts of `rel` are exactly the persons the rows list in
      column `col`, on the rows' dates. */
  ghost predicate ListsAs(rows: seq<LedgerRow>, rel: set<Fact>, col: nat) {
    forall d, n :: Fact(d, Named(n)) in rel <==> RowLists(rows, col, d, n)
  }

  /** Reading a canonical ledger into the seeded store: the reading succeeds
      and the store holds exactly the rows' facts besides the seed rows. */
  lemma ReadLedger(rows: seq<LedgerRow>) returns (G: Facts)
    requires Canonical(rows)
    ensures ReadLines(Seed, Preamble + LinesOf(rows)) == Success(G)
    ensures Recorded(G)
    ensures OncallAs(rows, G.oncall)
    ensures ListsAs(rows, G.onhols, 2)
    ensures ListsAs(rows, G.unavailable, 3)
  {
    G := ReadLedgerLines(rows);
    LedgerOncall(rows, G.oncall);
    LedgerList(rows, 2, G.onhols, Seed.onhols);
    LedgerList(rows, 3, G.unavailable, Seed.unavailable);
  }

  lemma LedgerOncall(rows: seq<LedgerRow>, rel: set<Fact>)
    requires Canonical(rows)
    requires forall f :: f in rel <==> (f in Seed.oncall ||
      (f.who.Named? && ReadsOncall(Preamble + LinesOf(rows), f.date, f.who.name)))
    ensures OncallAs(rows, rel)
  {
    forall d, n ensures Fact(d, Named(n)) in rel <==> RowOncall(rows, d, n) {
      assert Fact(d, Named(n)) !in Seed.oncall;
      OncallOfLedger(rows, d, n);
    }
  }

  lemma LedgerList(rows: seq<LedgerRow>, col: nat, rel: set<Fact>, seed: set<Fact>)
    requires Canonical(rows) && (col == 2 || col == 3) && seed == {Fact(DummyDate, Nobody)}
    requires forall f :: f in rel <==> (f in seed ||
      (f.who.Named? && ReadsList(Preamble + LinesOf(rows), col, f.date, f.who.name)))
    ensures ListsAs(rows, rel, col)
  {
    forall d, n ensures Fact(d, Named(n)) in rel <==> RowLists(rows, col, d, n) {
      assert Fact(d, Named(n)) !in seed;
      ListOfLedger(rows, col, d, n);
    }
  }

  /** The persons a canonical ledger lists in column `col` on the date of row
      `k` are exactly that row's. */
  lemma ListedOn(rows: seq<LedgerRow>, k: nat, rel: set<Fact>, col: nat)
    requires Canonical(rows) && k < |rows| && (col == 2 || col == 3)
    requires ListsAs(rows, rel, col)
    ensures NameList(rel, rows[k].date) == Join(Listed(rows[k], col), " ")
  {
    var d := rows[k].date;
    var cell := Listed(rows[k], col);
    forall n ensures n in NamesOn(rel, d) <==> n in cell {
      if n in NamesOn(rel, d) {
        var j :| 0 <= j < |rows| && rows[j].date == d && n in Listed(rows[j], col);
        assert j == k;
      }
    }
    assert NamesOn(rel, d) == set x | x in cell;
    SortedSetOfAscending(cell);
  }

  /** The on-call pairs of a canonical ledger, in row order. */
  function RowDuties(rows: seq<LedgerRow>): (ds: seq<Duty>)
    ensures |ds| == |rows| && forall k :: 0 <= k < |rows| ==> ds[k] == Duty(rows[k].date, rows[k].oncall)
  {
    seq(|rows|, k requires 0 <= k < |rows| => Duty(rows[k].date, rows[k].oncall))
  }

  /** After reading a canonical ledger, the writer's pairs are its rows' pairs. */
  lemma DutiesOfLedger(rows: seq<LedgerRow>, G: Facts)
    requires Canonical(rows)
    requires OncallAs(rows, G.oncall)
    ensures Duties(G) == RowDuties(rows)
  {
    var ds := RowDuties(rows);
    forall x ensures x in ds <==> x in Duties(G) {
      SameDuty(rows, G, x);
    }
    RowDutiesAscending(rows);
    DutiesUnique(Duties(G), ds);
  }

  /** A pair is a row's pair exactly when the writer lists it. */
  lemma SameDuty(rows: seq<LedgerRow>, G: Facts, x: Duty)
    requires Canonical(rows) && OncallAs(rows, G.oncall)
    ensures x in RowDuties(rows) <==> x in Duties(G)
  {
    var ds := RowDuties(rows);
    if x in ds {
      var k :| 0 <= k < |ds| && ds[k] == x;
      RowDutyWritten(rows, G, k);
    }
    if x in Duties(G) {
      WrittenDutyRow(rows, G, x);
    }
  }

  /** The rows' pairs of a canonical ledger are in ascending date order. */
  lemma RowDutiesAscending(rows: seq<LedgerRow>)
    requires Canonical(rows)
    ensures DutiesAscending(RowDuties(rows))
  {
  }

  /** Each row's pair is among the writer's pairs. */
  lemma RowDutyWritten(rows: seq<LedgerRow>, G: Facts, k: nat)
    requires Canonical(rows) && OncallAs(rows, G.oncall) && k < |rows|
    ensures Duty(rows[k].date, rows[k].oncall) in Duties(G)
  {
    assert RowOncall(rows, rows[k].date, rows[k].oncall);
  }

  /** Each of the writer's pairs is some row's pair. */
  lemma WrittenDutyRow(rows: seq<LedgerRow>, G: Facts, x: Duty)
    requires OncallAs(rows, G.oncall) && x in Duties(G)
    ensures x in RowDuties(rows)
  {
    assert RowOncall(rows, x.date, x.name);
    var k :| 0 <= k < |rows| && rows[k].date == x.date && rows[k].oncall == x.name;
    assert RowDuties(rows)[k] == x;
  }

  /** The writer's row for a row of the ledger read back is that row's line. */
  lemma RowOfLedger(rows: seq<LedgerRow>, G: Facts, i: nat)
    requires Canonical(rows) && i < |rows|
    requires ListsAs(rows, G.onhols, 2)
    requires ListsAs(rows, G.unavailable, 3)
    ensures Row(G, rows[i].date, rows[i].oncall) == LineOf(rows[i])
  {
    ListedOn(rows, i, G.onhols, 2);
    ListedOn(rows, i, G.unavailable, 3);
  }

  /** Reading a canonical ledger into the seeded store and writing the store
      back gives the same text: the preamble, then every row in date order
      with its sorted lists. */
  lemma LedgerRoundTrip(rows: seq<LedgerRow>)
    requires Canonical(rows)
    ensures var r := ReadLines(Seed, Preamble + LinesOf(rows));
      r.Success? && Recorded(r.value) && WriteFacts(r.value) == Preamble + LinesOf(rows)
  {
    var G := ReadLedger(rows);
    DutiesOfLedger(rows, G);
    WrittenBody(rows, G);
    var out := WriteFacts(G);
    assert out == out[..|Preamble|] + out[|Preamble|..];
  }

  /** What the writer prints after the preamble for the store read back. */
  lemma WrittenBody(rows: seq<LedgerRow>, G: Facts)
    requires Canonical(rows) && Recorded(G) && Duties(G) == RowDuties(rows)
    requires ListsAs(rows, G.onhols, 2) && ListsAs(rows, G.unavailable, 3)
    ensures WriteFacts(G)[|Preamble|..] == LinesOf(rows)
  {
    forall k | 0 <= k < |rows| ensures WriteFacts(G)[|Preamble|..][k] == LinesOf(rows)[k] {
      WrittenLine(rows, G, k);
    }
  }

  lemma WrittenLine(rows: seq<LedgerRow>, G: Facts, k: nat)
    requires Canonical(rows) && Recorded(G) && Duties(G) == RowDuties(rows) && k < |rows|
    requires ListsAs(rows, G.onhols, 2) && ListsAs(rows, G.unavailable, 3)
    ensures WriteFacts(G)[|Preamble| + k] == LinesOf(rows)[k]
  {
    assert Duties(G)[k] == Duty(rows[k].date, rows[k].oncall);
    RowOfLedger(rows, G, k);
  }
}
