/** The mutable fact store of `python/experiments/support.py`: the seeding in
    `reinit_pdl_facts`, the appending loops of `read_facts_from_file`, the
    single step `assign_next` and the `assign` command that runs it 50 times. */
module RotaStore {
  import opened Wrappers
  import opened Strings
  import opened Calendar
  import opened DateText
  import opened Rota
  import opened RotaLedger

  /** `rel` with one fact `(d, n)` added for each name `n` of `names`, one at a
      time, as the `for c in ....split(' ')` loops do. */
  method AddAll(rel: set<Fact>, d: Day, names: seq<string>) returns (r: set<Fact>)
    ensures r == rel + set n | n in names :: Fact(d, Named(n))
  {
    r := rel;
    var k := 0;
    while k < |names|
      invariant 0 <= k <= |names|
      invariant r == rel + set n | n in names[..k] :: Fact(d, Named(n))
    {
      assert names[..k + 1] == names[..k] + [names[k]];
      r := r + {Fact(d, Named(names[k]))};
      k := k + 1;
    }
    assert names[..k] == names;
  }

  class FactStore {
    var oncall: set<Fact>
    var onhols: set<Fact>
    var unavailable: set<Fact>

    function Snapshot(): Facts
      reads this
    {
      Facts(oncall, onhols, unavailable)
    }

    ghost predicate Valid()
      reads this
    {
      Recorded(Snapshot())
    }

    /** `reinit_pdl_facts`: each relation holds only its dummy row. */
    constructor()
      ensures Valid() && Snapshot() == Seed
    {
      oncall := {Fact(DummyDate, Nobody)};
      onhols := {Fact(DummyDate, Nobody)};
      unavailable := {Fact(DummyDate, Nobody)};
    }

    /** `read_facts_from_file` on the lines of `text`: the store afterwards is
        what `ReadLines` gives, or the reading stops at the first bad date. */
    method ReadFacts(text: string) returns (r: Outcome<string>)
      requires Valid()
      modifies this
      ensures Valid()
      ensures r.Pass? <==> ReadLines(old(Snapshot()), Split(text, "\n")).Success?
      ensures r.Pass? ==> Snapshot() == ReadLines(old(Snapshot()), Split(text, "\n")).value
      ensures r.Fail? ==> r.error == ReadLines(old(Snapshot()), Split(text, "\n")).error
    {
      var lines := Split(text, "\n");
      var i := 0;
      while i < |lines|
        invariant 0 <= i <= |lines|
        invariant Valid()
        invariant ReadLines(old(Snapshot()), lines) == ReadLines(Snapshot(), lines[i..])
      {
        ghost var before := Snapshot();
        assert lines[i..][1..] == lines[i + 1..];
        var row := Split(lines[i], ",");
        if !Skipped(row) {
          var d := Parse(row[0]);
          if d.None? {
            return Fail(row[0]);
          }
          if row[1] != "" {
            oncall := oncall + {Fact(d.value, Named(row[1]))};
          }
          onhols := AddAll(onhols, d.value, Split(row[2], " "));
          unavailable := AddAll(unavailable, d.value, Split(row[3], " "));
          assert ReadRow(before, lines[i]) == Success(Snapshot());
        }
        i := i + 1;
      }
      return Pass;
    }

    /** `assign_next`: on success exactly the decided fact is added; on failure
        nothing changes. It needs only some on-call fact to look back from,
        and it keeps the store `Valid`. */
    method AssignNext() returns (r: Result<Fact, Day>)
      requires oncall != {}
      modifies this
      ensures oncall != {}
      ensures old(Valid()) ==> Valid()
      ensures r == NextAssignment(old(Snapshot()))
      ensures r.Success? ==> Snapshot() == AddOncall(old(Snapshot()), r.value)
      ensures r.Failure? ==> Snapshot() == old(Snapshot())
    {
      r := NextAssignment(Snapshot());
      if r.Success? {
        AssignmentIsLatest(Snapshot());
        oncall := oncall + {r.value};
      }
    }

    /** `assign`: `n` calls of `assign_next`, stopping at the first that finds
        nobody; the store stays `Valid`. */
    method Assign(n: nat) returns (failedAt: Option<Day>)
      requires Valid()
      modifies this
      ensures Valid()
      ensures Snapshot() == Rounds(old(Snapshot()), n).facts
      ensures failedAt == Rounds(old(Snapshot()), n).failedAt
    {
      RoundsRecorded(Snapshot(), n);
      failedAt := AssignRounds(n);
    }

    /** The loop of `assign`. */
    method AssignRounds(n: nat) returns (failedAt: Option<Day>)
      requires oncall != {}
      modifies this
      ensures Snapshot() == Rounds(old(Snapshot()), n).facts
      ensures failedAt == Rounds(old(Snapshot()), n).failedAt
    {
      ghost var start := Snapshot();
      var i := 0;
      failedAt := None;
      while i < n && failedAt.None?
        invariant i <= n && oncall != {}
        invariant failedAt.None? ==> Rounds(start, n) == Rounds(Snapshot(), n - i)
        invariant failedAt.Some? ==> Rounds(start, n) == Run(Snapshot(), failedAt)
        decreases n - i + (if failedAt.None? then 1 else 0)
      {
        RoundsStep(Snapshot(), n - i);
        var r := AssignNext();
        if r.Failure? {
          failedAt := Some(r.error);
        } else {
          i := i + 1;
        }
      }
    }
  }

  datatype AssignError = BadDate(cell: string) | NoSolution(date: Day)

  /** The `assign` command on a ledger text: seed, read, assign 50 times and
      write the ledger; a round that finds nobody ends it with an error. */
  method AssignCommand(ledger: string) returns (r: Result<seq<string>, AssignError>)
    ensures r.Success? <==>
      ReadLines(Seed, Split(ledger, "\n")).Success? &&
      Rounds(ReadLines(Seed, Split(ledger, "\n")).value, 50).failedAt.None?
    ensures r.Success? ==>
      Recorded(Rounds(ReadLines(Seed, Split(ledger, "\n")).value, 50).facts) &&
      r.value == WriteFacts(Rounds(ReadLines(Seed, Split(ledger, "\n")).value, 50).facts)
  {
    var store := new FactStore();
    var read := store.ReadFacts(ledger);
    if read.Fail? {
      return Failure(BadDate(read.error));
    }
    var failed := store.Assign(50);
    if failed.Some? {
      return Failure(NoSolution(failed.value));
    }
    return Success(WriteFacts(store.Snapshot()));
  }
}
