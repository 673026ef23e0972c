/** The on-call rota rules of `python/experiments/support.py`: the roster, the
    three fact relations and every derived rule (back from holidays, at home,
    status, counts, score, last and next on-call date, next on-call person) as
    explicit functions over a snapshot of the facts. */
module Rota {
  import opened Wrappers
  import opened Strings
  import opened Calendar
  import opened DateText

  // ---------------------------------------------------------------------------
  // Facts
  // ---------------------------------------------------------------------------

  /** The person column of a fact; the seed rows carry Python's `None`. */
  datatype Who = Nobody | Named(name: string)

  datatype Fact = Fact(date: Day, who: Who)

  /** The `is_oncall`, `is_onhols` and `is_unavailable` relations. */
  datatype Facts = Facts(oncall: set<Fact>, onhols: set<Fact>, unavailable: set<Fact>)

  /** `DUMMY_DATE`, 1970-01-01, as a day number. */
  const DummyDate: Day := 719162

  /** The dummy date's text is `19700101`. */
  lemma DummyDateText()
    ensures Parse("19700101") == Some(DummyDate)
    ensures Format(DummyDate) == "19700101"
  {
    var s := "19700101";
    assert s[..4] == "1970" && s[4..6] == "01" && s[6..] == "01";
    assert ParseDecimal("1970") == 1970 by {
      assert "1970"[..3] == "197" && "197"[..2] == "19" && "19"[..1] == "1";
    }
    assert ParseDecimal("01") == 1 by {
      assert "01"[..1] == "0";
    }
    assert ToDay(Civil(1970, 1, 1)) == DummyDate;
    FormatParse(s);
  }

  /** The facts seeded before the ledger is read: one dummy row per relation. */
  const Seed: Facts := Facts({Fact(DummyDate, Nobody)}, {Fact(DummyDate, Nobody)}, {Fact(DummyDate, Nobody)})

  /** What every fact store the rota builds satisfies: the seed rows are
      present, the seed row is the only on-call fact without a person, and no
      on-call date lies before day 0. */
  predicate Recorded(F: Facts) {
    Fact(DummyDate, Nobody) in F.oncall && Fact(DummyDate, Nobody) in F.onhols &&
    Fact(DummyDate, Nobody) in F.unavailable &&
    (forall f :: f in F.oncall ==> f.date >= 0) &&
    (forall f :: f in F.oncall && f.who == Nobody ==> f.date == DummyDate)
  }

  // ---------------------------------------------------------------------------
  // Roster
  // ---------------------------------------------------------------------------

  /** A roster entry: `abbrev`, `initial_score` and the weekdays of `is_at_home`. */
  datatype Member = Member(name: string, abbrev: string, initial: int, homeDays: set<Weekday>)

  const Team: seq<Member> := [
    Member("Alan", "AA", 0, {Mon}),
    Member("Bert", "BB", 0, {Tue, Thu}),
    Member("Cloe", "CC", 0, {Fri})
  ]

  /** `person(P)`: `P` has an abbreviation. */
  predicate IsPerson(p: string) {
    exists i :: 0 <= i < |Team| && Team[i].name == p
  }

  // ---------------------------------------------------------------------------
  // Base relations and predicates
  // ---------------------------------------------------------------------------

  predicate IsOncall(F: Facts, d: Day, p: string) {
    Fact(d, Named(p)) in F.oncall
  }

  predicate IsOnhols(F: Facts, d: Day, p: string) {
    Fact(d, Named(p)) in F.onhols
  }

  predicate IsUnavailable(F: Facts, d: Day, p: string) {
    Fact(d, Named(p)) in F.unavailable
  }

  /** `oncall_date(D)`: the dates that carry an on-call fact, the dummy date excepted. */
  function OncallDates(F: Facts): (r: set<Day>)
    ensures DummyDate !in r
    ensures forall f :: f in F.oncall && f.date != DummyDate ==> f.date in r
    ensures forall x :: x in r ==> exists f :: f in F.oncall && f.date == x
  {
    set f | f in F.oncall && f.date != DummyDate :: f.date
  }

  /** `is_back_from_hols(D, P)`: not on holiday on `D` but on holiday on the
      previous weekday. */
  predicate IsBackFromHols(F: Facts, d: Day, p: string) {
    !IsOnhols(F, d, p) && IsOnhols(F, PrevWeekday(d), p)
  }

  /** On a Monday "back from holidays" looks at the Friday before; on any other
      weekday at the day before. */
  lemma BackFromHolsLooksBack(F: Facts, d: Day, p: string)
    requires IsWeekday(d)
    ensures DayOfWeek(d) == Mon ==> (IsBackFromHols(F, d, p) <==> !IsOnhols(F, d, p) && IsOnhols(F, d - 3, p))
    ensures DayOfWeek(d) != Mon ==> (IsBackFromHols(F, d, p) <==> !IsOnhols(F, d, p) && IsOnhols(F, d - 1, p))
  {
    IsoWeekdayStep(d - 1);
    IsoWeekdayStep(d - 2);
    IsoWeekdayStep(d - 3);
  }

  /** `is_at_home(D, P)`: `D` is one of `P`'s work-from-home weekdays. */
  predicate IsAtHome(d: Day, p: string) {
    exists i :: 0 <= i < |Team| && Team[i].name == p && DayOfWeek(d) in Team[i].homeDays
  }

  /** The three `is_at_home` rules: Alan on Mondays, Bert on Tuesdays and
      Thursdays, Cloe on Fridays, nobody else ever. */
  lemma AtHomeRules(d: Day, p: string)
    ensures IsAtHome(d, p) <==>
      (p == "Alan" && Dow(d) in ["Mon"]) ||
      (p == "Bert" && Dow(d) in ["Tue", "Thu"]) ||
      (p == "Cloe" && Dow(d) in ["Fri"])
  {
    if IsAtHome(d, p) {
      var i :| 0 <= i < |Team| && Team[i].name == p && DayOfWeek(d) in Team[i].homeDays;
      assert i == 0 || i == 1 || i == 2;
    }
    if p == "Alan" && Dow(d) in ["Mon"] {
      assert Team[0].name == p && DayOfWeek(d) in Team[0].homeDays;
    }
    if p == "Bert" && Dow(d) in ["Tue", "Thu"] {
      assert Team[1].name == p && DayOfWeek(d) in Team[1].homeDays;
    }
    if p == "Cloe" && Dow(d) in ["Fri"] {
      assert Team[2].name == p && DayOfWeek(d) in Team[2].homeDays;
    }
  }

  // ---------------------------------------------------------------------------
  // Status
  // ---------------------------------------------------------------------------

  datatype Status = Idle | AtHome | OnHols | Unavailable | BackFromHols | Oncall

  /** The text `status` yields. */
  function Label(s: Status): string {
    match s
    case Idle => "-"
    case AtHome => "At home"
    case OnHols => "On hols"
    case Unavailable => "Unavailable"
    case BackFromHols => "Back from hols"
    case Oncall => "Oncall"
  }

  /** Position of a status rule in the source: later rules win. */
  function Rank(s: Status): nat {
    match s
    case Idle => 0
    case AtHome => 1
    case OnHols => 2
    case Unavailable => 3
    case BackFromHols => 4
    case Oncall => 5
  }

  /** The condition of the rule that yields `s`; the default rule always applies. */
  predicate Applies(F: Facts, d: Day, p: string, s: Status) {
    match s
    case Idle => true
    case AtHome => IsAtHome(d, p)
    case OnHols => IsOnhols(F, d, p)
    case Unavailable => IsUnavailable(F, d, p)
    case BackFromHols => IsBackFromHols(F, d, p)
    case Oncall => IsOncall(F, d, p)
  }

  /** `status[D, P]`: the value of the last-defined rule whose condition holds. */
  function StatusOf(F: Facts, d: Day, p: string): (s: Status)
    ensures Applies(F, d, p, s)
    ensures forall t: Status :: Rank(t) > Rank(s) ==> !Applies(F, d, p, t)
  {
    if IsOncall(F, d, p) then Oncall
    else if IsBackFromHols(F, d, p) then BackFromHols
    else if IsUnavailable(F, d, p) then Unavailable
    else if IsOnhols(F, d, p) then OnHols
    else if IsAtHome(d, p) then AtHome
    else Idle
  }

  /** `status` has exactly one value: any applicable status that no
      higher-ranked applicable status overrides is `StatusOf`. */
  lemma StatusUnique(F: Facts, d: Day, p: string, s: Status)
    requires Applies(F, d, p, s)
    requires forall t: Status :: Rank(t) > Rank(s) ==> !Applies(F, d, p, t)
    ensures s == StatusOf(F, d, p)
  {
    var u := StatusOf(F, d, p);
    assert Rank(u) <= Rank(s);
    assert Rank(s) <= Rank(u);
  }

  // ---------------------------------------------------------------------------
  // Counts and score
  // ---------------------------------------------------------------------------

  /** The distinct dates up to `d` on which `rel` holds for `p`. Day order is
      the order of the `YYYYMMDD` texts the source compares (`FormatOrder`). */
  function DatesUpTo(rel: set<Fact>, d: Day, p: string): set<Day> {
    set f | f in rel && f.who == Named(p) && f.date <= d :: f.date
  }

  /** `count_oncall`, `count_onhols`, `count_unavailable` (0 when nothing matches). */
  function Count(rel: set<Fact>, d: Day, p: string): nat {
    |DatesUpTo(rel, d, p)|
  }

  /** A count never decreases as the date moves on. */
  lemma CountMonotone(rel: set<Fact>, d1: Day, d2: Day, p: string)
    requires d1 <= d2
    ensures Count(rel, d1, p) <= Count(rel, d2, p)
  {
    assert DatesUpTo(rel, d1, p) <= DatesUpTo(rel, d2, p);
    SubsetCard(DatesUpTo(rel, d1, p), DatesUpTo(rel, d2, p));
  }

  lemma SubsetCard<T>(a: set<T>, b: set<T>)
    requires a <= b
    ensures |a| <= |b|
  {
    assert b == a + (b - a);
  }

  /** Adding a new fact for `q` on date `x` adds one to `q`'s count on every
      date from `x` on, and changes no other count. */
  lemma CountAdd(rel: set<Fact>, x: Day, q: string, d: Day, p: string)
    requires Fact(x, Named(q)) !in rel
    ensures Count(rel + {Fact(x, Named(q))}, d, p) ==
            Count(rel, d, p) + (if p == q && x <= d then 1 else 0)
  {
    var before := DatesUpTo(rel, d, p);
    var after := DatesUpTo(rel + {Fact(x, Named(q))}, d, p);
    if p == q && x <= d {
      assert x !in before;
      assert after == before + {x};
    } else {
      assert after == before;
    }
  }

  /** A person's count is zero before any ledger row is read. */
  lemma CountSeed(rel: set<Fact>, d: Day, p: string)
    requires rel == Seed.oncall
    ensures Count(rel, d, p) == 0
  {
    assert DatesUpTo(rel, d, p) == {};
  }

  /** `score[D, P] = initial_score[P] + count_oncall[D, P] + 0.2 * count_onhols[D, P]`. */
  function Score(F: Facts, d: Day, m: Member): real {
    m.initial as real + Count(F.oncall, d, m.name) as real + 0.2 * Count(F.onhols, d, m.name) as real
  }

  // ---------------------------------------------------------------------------
  // Next on-call person
  // ---------------------------------------------------------------------------

  /** The conditions of `next_oncall_person`: not on holiday, not unavailable,
      not back from holidays and not at home on `d`. */
  predicate Eligible(F: Facts, d: Day, m: Member) {
    !IsOnhols(F, d, m.name) && !IsUnavailable(F, d, m.name) &&
    !IsBackFromHols(F, d, m.name) && !IsAtHome(d, m.name)
  }

  /** The position of the first eligible member of `ms` with the lowest score. */
  function FirstBest(F: Facts, d: Day, ms: seq<Member>): (r: Option<nat>)
    ensures r.Some? ==> r.value < |ms| && Eligible(F, d, ms[r.value])
    ensures r.Some? ==> forall j :: 0 <= j < |ms| && Eligible(F, d, ms[j]) ==> Score(F, d, ms[r.value]) <= Score(F, d, ms[j])
    ensures r.Some? ==> forall j :: 0 <= j < r.value && Eligible(F, d, ms[j]) ==> Score(F, d, ms[r.value]) < Score(F, d, ms[j])
    ensures r.None? <==> forall j :: 0 <= j < |ms| ==> !Eligible(F, d, ms[j])
  {
    if |ms| == 0 then None
    else
      var rest := FirstBest(F, d, ms[1..]);
      if Eligible(F, d, ms[0]) && (rest.None? || Score(F, d, ms[0]) <= Score(F, d, ms[1..][rest.value])) then
        Some(0)
      else if rest.Some? then
        Some(rest.value + 1)
      else
        None
  }

  /** `m` is a roster member eligible on `d` whom no eligible member beats on score. */
  predicate IsBest(F: Facts, d: Day, m: Member) {
    m in Team && Eligible(F, d, m) &&
    forall m' :: m' in Team && Eligible(F, d, m') ==> Score(F, d, m) <= Score(F, d, m')
  }

  predicate NobodyEligible(F: Facts, d: Day) {
    forall m :: m in Team ==> !Eligible(F, d, m)
  }

  /** `next_oncall_person[D]`: an eligible roster member with the lowest score,
      the earliest in the roster among equals; `None` when nobody is eligible. */
  function NextOncallPerson(F: Facts, d: Day): (r: Option<Member>)
    ensures r.Some? ==> IsBest(F, d, r.value)
    ensures r.None? <==> NobodyEligible(F, d)
  {
    match FirstBest(F, d, Team)
    case Some(i) => Some(Team[i])
    case None => None
  }

  // ---------------------------------------------------------------------------
  // Last and next on-call dates
  // ---------------------------------------------------------------------------

  lemma {:induction false} MaxOf(s: set<Day>) returns (m: Day)
    requires s != {}
    ensures m in s && forall x :: x in s ==> x <= m
    decreases |s|
  {
    assert (forall x :: x !in s) ==> s == {};
    var y :| y in s;
    var rest := s - {y};
    assert forall x :: x in s ==> x in rest || x == y;
    if rest == {} {
      m := y;
    } else {
      var m' := MaxOf(rest);
      m := if m' < y then y else m';
    }
  }

  lemma MaxExists(s: set<Day>)
    requires s != {}
    ensures exists m :: m in s && forall x :: x in s ==> x <= m
  {
    var m := MaxOf(s);
  }

  /** The latest day of a non-empty set (`_max(Date, order_by=Date)`). */
  function MaxDay(s: set<Day>): (m: Day)
    requires s != {}
    ensures m in s && forall x :: x in s ==> x <= m
  {
    MaxExists(s);
    var m :| m in s && forall x :: x in s ==> x <= m;
    m
  }

  /** `last_oncall_date[None]`: the latest on-call date, the dummy one included. */
  function LastOncallDate(F: Facts): (r: Day)
    requires F.oncall != {}
    ensures exists f :: f in F.oncall && f.date == r
    ensures forall f :: f in F.oncall ==> f.date <= r
  {
    var f :| f in F.oncall;
    var dates := set g | g in F.oncall :: g.date;
    assert forall g :: g in F.oncall ==> g.date in dates;
    MaxDay(dates)
  }

  /** `last_oncall_date[P]`: the latest date `p` was on call, if any. */
  function LastOncallDateOf(F: Facts, p: string): (r: Option<Day>)
    ensures r.None? <==> forall f :: f in F.oncall ==> f.who != Named(p)
    ensures r.Some? ==> Fact(r.value, Named(p)) in F.oncall
    ensures r.Some? ==> forall f :: f in F.oncall && f.who == Named(p) ==> f.date <= r.value
  {
    var dates := set g | g in F.oncall && g.who == Named(p) :: g.date;
    assert forall g :: g in F.oncall && g.who == Named(p) ==> g.date in dates;
    if dates == {} then None
    else Some(MaxDay(dates))
  }

  /** With no ledger rows the last on-call date is the dummy date (`19700101`
      by `DummyDateText`), so the first assignment goes to 1970-01-02, the
      Friday after it. */
  lemma EmptyLedgerLast()
    ensures LastOncallDate(Seed) == DummyDate
    ensures NextWeekday(LastOncallDate(Seed)) == DummyDate + 1
  {
    assert LastOncallDate(Seed) == DummyDate by {
      assert Fact(DummyDate, Nobody) in Seed.oncall;
    }
    assert IsoWeekday(DummyDate + 1) == 5;
  }

  // ---------------------------------------------------------------------------
  // assign_next
  // ---------------------------------------------------------------------------

  function AddOncall(F: Facts, f: Fact): Facts {
    F.(oncall := F.oncall + {f})
  }

  /** Recording an on-call fact adds its date to `oncall_date`, unless it is
      the dummy date, and no other date. */
  lemma OncallDatesAdd(F: Facts, f: Fact)
    ensures OncallDates(AddOncall(F, f)) == OncallDates(F) + (if f.date != DummyDate then {f.date} else {})
  {
    var G := AddOncall(F, f);
    forall x ensures x in OncallDates(G) <==> x in OncallDates(F) || (x == f.date && x != DummyDate) {
      if x in OncallDates(G) {
        var g :| g in G.oncall && g.date == x;
      }
      if x == f.date && x != DummyDate {
        assert f in G.oncall;
      }
      if x in OncallDates(F) {
        var g :| g in F.oncall && g.date == x;
        assert g in G.oncall;
      }
    }
  }

  /** The seeded store has no on-call date: its only fact is the dummy one. */
  lemma OncallDatesSeed()
    ensures OncallDates(Seed) == {}
  {
  }

  /** What `assign_next` decides: the on-call fact for the first weekday after
      the last on-call date, or that date when nobody can take it. */
  function NextAssignment(F: Facts): (r: Result<Fact, Day>)
    requires F.oncall != {}
    ensures r.Success? ==> r.value.date == NextWeekday(LastOncallDate(F)) && r.value.who.Named?
    ensures r.Failure? ==> r.error == NextWeekday(LastOncallDate(F))
  {
    var next := NextWeekday(LastOncallDate(F));
    match NextOncallPerson(F, next)
    case Some(m) => Success(Fact(next, Named(m.name)))
    case None => Failure(next)
  }

  /** `assign_next` picks a best eligible roster member for the next weekday,
      and fails exactly when nobody is eligible that day. */
  lemma AssignmentChoosesBest(F: Facts)
    requires F.oncall != {}
    ensures var next := NextWeekday(LastOncallDate(F));
      match NextAssignment(F)
      case Success(f) => exists m :: IsBest(F, next, m) && f.who == Named(m.name)
      case Failure(_) => NobodyEligible(F, next)
  {
    var next := NextWeekday(LastOncallDate(F));
    match NextOncallPerson(F, next)
    case Some(m) =>
      assert IsBest(F, next, m);
    case None =>
  }

  /** The assigned fact is new, lies after every recorded on-call date, and
      becomes the last on-call date. */
  lemma AssignmentIsLatest(F: Facts)
    requires F.oncall != {} && NextAssignment(F).Success?
    ensures var f := NextAssignment(F).value;
      f !in F.oncall &&
      (forall g :: g in F.oncall ==> g.date < f.date) &&
      LastOncallDate(AddOncall(F, f)) == f.date
  {
    var f := NextAssignment(F).value;
    var F' := AddOncall(F, f);
    assert f in F'.oncall;
  }

  /** Assigning raises the chosen person's score by one on the new date and
      leaves every other roster member's score unchanged. */
  lemma AssignmentScore(F: Facts, m: Member)
    requires F.oncall != {} && NextAssignment(F).Success?
    ensures var f := NextAssignment(F).value;
      Score(AddOncall(F, f), f.date, m) ==
      Score(F, f.date, m) + (if f.who == Named(m.name) then 1.0 else 0.0)
  {
    var f := NextAssignment(F).value;
    AssignmentIsLatest(F);
    CountAdd(F.oncall, f.date, f.who.name, f.date, m.name);
  }

  /** The outcome of `n` rounds of `assign_next`: the facts afterwards, and the
      date of the round that found nobody (after which `sys.exit(1)` stops it). */
  datatype Run = Run(facts: Facts, failedAt: Option<Day>)

  /** `n` successive assignments, stopping at the first that finds nobody.
      Each successful round adds exactly one new on-call fact and the other
      relations never change; the rounds keep a store `Recorded`, and a
      failing round names a date after day 0. */
  function Rounds(F: Facts, n: nat): (r: Run)
    requires F.oncall != {}
    ensures F.oncall <= r.facts.oncall
    ensures r.facts.onhols == F.onhols && r.facts.unavailable == F.unavailable
    ensures r.failedAt.None? ==> |r.facts.oncall| == |F.oncall| + n
    ensures r.failedAt.Some? ==> |r.facts.oncall| < |F.oncall| + n
    decreases n, 1
  {
    if n == 0 then Run(F, None) else RoundsAfter(F, NextAssignment(F), n)
  }

  /** The `n > 0` rounds from `F` once the first round's decision `next` is
      known. */
  function RoundsAfter(F: Facts, next: Result<Fact, Day>, n: nat): (r: Run)
    requires F.oncall != {} && n > 0 && next == NextAssignment(F)
    ensures F.oncall <= r.facts.oncall
    ensures r.facts.onhols == F.onhols && r.facts.unavailable == F.unavailable
    ensures r.failedAt.None? ==> |r.facts.oncall| == |F.oncall| + n
    ensures r.failedAt.Some? ==> |r.facts.oncall| < |F.oncall| + n
    decreases n, 0
  {
    OneRound(F);
    match next
    case Failure(d) => Run(F, Some(d))
    case Success(f) => Rounds(AddOncall(F, f), n - 1)
  }

  /** The rounds keep the store `Recorded`, and a round that finds nobody
      names a date after day 0. */
  lemma {:induction false} RoundsRecorded(F: Facts, n: nat)
    requires F.oncall != {} && Recorded(F)
    ensures Recorded(Rounds(F, n).facts)
    ensures Rounds(F, n).failedAt.Some? ==> Rounds(F, n).failedAt.value > 0
    decreases n
  {
    if n > 0 {
      OneRound(F);
      match NextAssignment(F)
      case Failure(_) =>
      case Success(f) =>
        RoundsRecorded(AddOncall(F, f), n - 1);
        assert Rounds(F, n) == Rounds(AddOncall(F, f), n - 1);
    }
  }

  /** One round: a success adds one fact and keeps the store `Recorded`; a
      failure on a `Recorded` store names a date after day 0. */
  lemma OneRound(F: Facts)
    requires F.oncall != {}
    ensures match NextAssignment(F)
      case Success(f) =>
        |AddOncall(F, f).oncall| == |F.oncall| + 1 &&
        (Recorded(F) ==> Recorded(AddOncall(F, f)))
      case Failure(d) => Recorded(F) ==> d > 0
  {
    if NextAssignment(F).Success? {
      AssignmentIsLatest(F);
    }
  }

  /** One round of `Rounds`: the first assignment, then the remaining rounds. */
  lemma RoundsStep(F: Facts, k: nat)
    requires F.oncall != {} && k > 0
    ensures NextAssignment(F).Failure? ==> Rounds(F, k) == Run(F, Some(NextAssignment(F).error))
    ensures NextAssignment(F).Success? ==> Rounds(F, k) == Rounds(AddOncall(F, NextAssignment(F).value), k - 1)
  {
  }
}
