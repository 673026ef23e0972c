/** The MAC filtering page of `python/superhub/requests/pages.py`: the
    ordered table of filter entries keyed by device name, with its add,
    delete-mark, enable and disable operations, and the form data `save`
    posts; plus the two table readers of the same file. */
module MacFilter {
  import opened Wrappers
  import opened Strings

  /** `MacEntry(device_name, mac_address, enable, delete)`. */
  datatype MacEntry = MacEntry(deviceName: string, macAddress: string, enable: bool, delete: bool)

  /** The entries are an `OrderedDict` keyed by `device_name`, and every key is
      its entry's own `device_name`: a sequence with distinct names. */
  predicate UniqueNames(es: seq<MacEntry>)
  {
    forall i, j :: 0 <= i < j < |es| ==> es[i].deviceName != es[j].deviceName
  }

  /** `device_name in self.entries`. */
  predicate HasName(es: seq<MacEntry>, name: string)
  {
    exists i :: 0 <= i < |es| && es[i].deviceName == name
  }

  /** The position of the entry named `name`. */
  function IndexOf(es: seq<MacEntry>, name: string): (r: Option<nat>)
    ensures r.Some? ==> r.value < |es| && es[r.value].deviceName == name
    ensures r.None? ==> forall i :: 0 <= i < |es| ==> es[i].deviceName != name
  {
    if |es| == 0 then None
    else if es[0].deviceName == name then Some(0)
    else
      match IndexOf(es[1..], name)
      case None => None
      case Some(i) => Some(i + 1)
  }

  /** `entries[e.device_name] = e` on an `OrderedDict`: a known name keeps its
      position and takes the new value, a new name goes at the end. */
  function PutEntry(es: seq<MacEntry>, e: MacEntry): (r: seq<MacEntry>)
    requires UniqueNames(es)
    ensures UniqueNames(r)
    ensures HasName(r, e.deviceName)
    ensures !HasName(es, e.deviceName) ==> r == es + [e]
    ensures HasName(es, e.deviceName) ==> (|r| == |es| &&
      forall k :: 0 <= k < |es| ==> r[k] == if es[k].deviceName == e.deviceName then e else es[k])
  {
    match IndexOf(es, e.deviceName)
    case Some(i) => assert es[i := e][i] == e; es[i := e]
    case None => assert (es + [e])[|es|] == e; es + [e]
  }

  // ---------------------------------------------------------------------------
  // _parse_entries
  // ---------------------------------------------------------------------------

  /** A row of the filter list table once its ignored columns are gone. */
  datatype FilterRow = FilterRow(name: string, mac: string, enable: bool)

  /** The entry `_parse_entries` makes of a row: MAC lower-cased, not deleted. */
  function EntryOf(row: FilterRow): MacEntry
  {
    MacEntry(row.name, Lower(row.mac), row.enable, false)
  }

  /** The dictionary `_parse_entries` builds, one `entries[...] = entry` per row. */
  function Parsed(rows: seq<FilterRow>): (es: seq<MacEntry>)
    ensures UniqueNames(es)
  {
    if |rows| == 0 then []
    else PutEntry(Parsed(rows[..|rows| - 1]), EntryOf(rows[|rows| - 1]))
  }

  /** The row `j` is the last one with its name. */
  predicate LastWithName(rows: seq<FilterRow>, j: nat)
    requires j < |rows|
  {
    forall j' :: j < j' < |rows| ==> rows[j'].name != rows[j].name
  }

  /** Every row's name has an entry. */
  lemma {:induction false} ParsedHasNames(rows: seq<FilterRow>)
    ensures forall j :: 0 <= j < |rows| ==> HasName(Parsed(rows), rows[j].name)
  {
    if |rows| > 0 {
      var n := |rows| - 1;
      var prev := rows[..n];
      ParsedHasNames(prev);
      var es := Parsed(prev);
      var e := EntryOf(rows[n]);
      var r := Parsed(rows);
      assert r == PutEntry(es, e);
      forall j | 0 <= j < n
        ensures HasName(r, rows[j].name)
      {
        assert prev[j] == rows[j];
        var k :| 0 <= k < |es| && es[k].deviceName == rows[j].name;
        assert r[k].deviceName == rows[j].name;
      }
    }
  }

  /** Each row that is last with its name has its entry in `es`. */
  predicate HoldsLastRows(rows: seq<FilterRow>, es: seq<MacEntry>)
  {
    forall j :: 0 <= j < |rows| && LastWithName(rows, j) ==>
      exists k :: 0 <= k < |es| && es[k] == EntryOf(rows[j])
  }

  /** The row that is last with its name has its entry in the table. */
  lemma {:induction false} ParsedKeepsLast(rows: seq<FilterRow>)
    ensures HoldsLastRows(rows, Parsed(rows))
  {
    if |rows| > 0 {
      var n := |rows| - 1;
      var prev := rows[..n];
      ParsedKeepsLast(prev);
      var es := Parsed(prev);
      var e := EntryOf(rows[n]);
      var r := Parsed(rows);
      assert r == PutEntry(es, e);
      forall j | 0 <= j < |rows| && LastWithName(rows, j)
        ensures exists k :: 0 <= k < |r| && r[k] == EntryOf(rows[j])
      {
        if j == n {
          var k :| 0 <= k < |r| && r[k].deviceName == e.deviceName;
          if !HasName(es, e.deviceName) {
            assert r[|es|] == e;
          } else {
            assert r[k] == e;
          }
        } else {
          assert prev[j] == rows[j];
          assert LastWithName(prev, j);
          var k :| 0 <= k < |es| && es[k] == EntryOf(prev[j]);
          assert es[k].deviceName != e.deviceName;
          assert r[k] == es[k];
        }
      }
    }
  }

  /** Each entry of `es` is made from a row that is last with its name. */
  predicate ComesFromLastRows(rows: seq<FilterRow>, es: seq<MacEntry>)
  {
    forall k :: 0 <= k < |es| ==>
      exists j :: 0 <= j < |rows| && LastWithName(rows, j) && es[k] == EntryOf(rows[j])
  }

  /** Each entry is made from the last row with its name: a later duplicate
      overwrites the earlier one's value. */
  lemma {:induction false} ParsedFromLast(rows: seq<FilterRow>)
    ensures ComesFromLastRows(rows, Parsed(rows))
  {
    if |rows| > 0 {
      var n := |rows| - 1;
      var prev := rows[..n];
      ParsedFromLast(prev);
      var es := Parsed(prev);
      var e := EntryOf(rows[n]);
      var r := Parsed(rows);
      assert r == PutEntry(es, e);
      forall k | 0 <= k < |r|
        ensures exists j :: 0 <= j < |rows| && LastWithName(rows, j) && r[k] == EntryOf(rows[j])
      {
        if r[k].deviceName == e.deviceName {
          assert !HasName(es, e.deviceName) ==> forall m :: 0 <= m < |es| ==> r[m].deviceName != e.deviceName;
          assert r[k] == e;
          assert LastWithName(rows, n);
        } else {
          assert k < |es| && r[k] == es[k];
          var j :| 0 <= j < |prev| && LastWithName(prev, j) && es[k] == EntryOf(prev[j]);
          StillLast(rows, j);
        }
      }
    }
  }

  /** A row last with its name before the final row stays last when the
      final row has another name. */
  lemma StillLast(rows: seq<FilterRow>, j: nat)
    requires j < |rows| - 1 && LastWithName(rows[..|rows| - 1], j)
    requires rows[|rows| - 1].name != rows[j].name
    ensures LastWithName(rows, j) && rows[..|rows| - 1][j] == rows[j]
  {
    var prev := rows[..|rows| - 1];
    forall j' | j < j' < |rows|
      ensures rows[j'].name != rows[j].name
    {
      if j' < |rows| - 1 {
        assert prev[j'] == rows[j'];
      }
    }
  }

  /** `_parse_entries`: the loop over the rows of the filter list table. */
  method ParseEntries(rows: seq<FilterRow>) returns (es: seq<MacEntry>)
    ensures es == Parsed(rows)
  {
    es := [];
    var i := 0;
    while i < |rows|
      invariant 0 <= i <= |rows|
      invariant es == Parsed(rows[..i])
    {
      assert rows[..i + 1][..i] == rows[..i];
      es := PutEntry(es, EntryOf(rows[i]));
      i := i + 1;
    }
    assert rows[..i] == rows;
  }

  // ---------------------------------------------------------------------------
  // Entry flags
  // ---------------------------------------------------------------------------

  /** The entries with the named one marked for deletion. */
  function Marked(es: seq<MacEntry>, name: string): (r: seq<MacEntry>)
    ensures |r| == |es|
    ensures forall k :: 0 <= k < |es| ==>
      r[k].deviceName == es[k].deviceName && r[k].macAddress == es[k].macAddress && r[k].enable == es[k].enable
    ensures forall k :: 0 <= k < |es| ==> (r[k].delete <==> es[k].delete || es[k].deviceName == name)
  {
    seq(|es|, k requires 0 <= k < |es| => if es[k].deviceName == name then es[k].(delete := true) else es[k])
  }

  /** The entries with the named one's `enable` set to `on`. */
  function Switched(es: seq<MacEntry>, name: string, on: bool): (r: seq<MacEntry>)
    ensures |r| == |es|
    ensures forall k :: 0 <= k < |es| ==>
      r[k].deviceName == es[k].deviceName && r[k].macAddress == es[k].macAddress && r[k].delete == es[k].delete
    ensures forall k :: 0 <= k < |es| && es[k].deviceName == name ==> r[k].enable == on
    ensures forall k :: 0 <= k < |es| && es[k].deviceName != name ==> r[k] == es[k]
  {
    seq(|es|, k requires 0 <= k < |es| => if es[k].deviceName == name then es[k].(enable := on) else es[k])
  }

  /** Marking and switching keep every name, so the names stay distinct, and
      doing either twice is doing it once. */
  lemma FlagsIdempotent(es: seq<MacEntry>, name: string, on: bool)
    ensures UniqueNames(es) ==> UniqueNames(Marked(es, name)) && UniqueNames(Switched(es, name, on))
    ensures Marked(Marked(es, name), name) == Marked(es, name)
    ensures Switched(Switched(es, name, on), name, on) == Switched(es, name, on)
  {
  }

  // ---------------------------------------------------------------------------
  // save
  // ---------------------------------------------------------------------------

  datatype FormValue = Text(text: string) | Num(num: int)

  type Form = seq<(string, FormValue)>

  /** Some pair of `d` has the key `k`. */
  predicate HasKey(d: Form, k: string)
  {
    exists i :: 0 <= i < |d| && d[i].0 == k
  }

  /** The position of the first pair with key `k`. */
  function KeyIndex(d: Form, k: string): (r: Option<nat>)
    ensures r.Some? <==> HasKey(d, k)
    ensures r.Some? ==> (r.value < |d| && d[r.value].0 == k &&
      forall j :: 0 <= j < r.value ==> d[j].0 != k)
  {
    if |d| == 0 then None
    else if d[0].0 == k then Some(0)
    else
      match KeyIndex(d[1..], k)
      case None => None
      case Some(i) => assert d[i + 1] == d[1..][i]; Some(i + 1)
  }

  /** The first position with key `k` is the one `KeyIndex` finds. */
  lemma KeyIndexFirst(d: Form, k: string, i: nat)
    requires i < |d| && d[i].0 == k && forall j :: 0 <= j < i ==> d[j].0 != k
    ensures KeyIndex(d, k) == Some(i)
  {
  }

  /** `data[k] = v` on an `OrderedDict`: a known key keeps its position, a new
      key goes at the end. */
  function Put(d: Form, k: string, v: FormValue): (r: Form)
    ensures !HasKey(d, k) ==> r == d + [(k, v)]
  {
    match KeyIndex(d, k)
    case Some(i) => d[i := (k, v)]
    case None => d + [(k, v)]
  }

  /** `data[k]`: the value under key `k`. */
  function Lookup(d: Form, k: string): (r: Option<FormValue>)
    ensures r.None? <==> !HasKey(d, k)
  {
    match KeyIndex(d, k)
    case Some(i) => Some(d[i].1)
    case None => None
  }

  /** Looking up in two forms one after the other: the first one wins. */
  lemma LookupAppend(a: Form, b: Form, k: string)
    ensures Lookup(a + b, k) == if HasKey(a, k) then Lookup(a, k) else Lookup(b, k)
  {
    if HasKey(a, k) {
      var i := KeyIndex(a, k).value;
      KeyIndexFirst(a + b, k, i);
    } else if HasKey(b, k) {
      var j := KeyIndex(b, k).value;
      assert (a + b)[|a| + j] == b[j];
      KeyIndexFirst(a + b, k, |a| + j);
    } else {
      forall i | 0 <= i < |a + b|
        ensures (a + b)[i].0 != k
      {
        if i < |a| {
          assert (a + b)[i] == a[i];
        } else {
          assert (a + b)[i] == b[i - |a|];
        }
      }
    }
  }

  /** `data[k] = v` then `data[k]` gives `v`, and leaves every other key's
      value as it was. */
  lemma LookupPut(d: Form, k: string, v: FormValue, k': string)
    ensures Lookup(Put(d, k, v), k') == if k' == k then Some(v) else Lookup(d, k')
  {
    match KeyIndex(d, k)
    case Some(i) =>
      var r := d[i := (k, v)];
      if k' == k {
        KeyIndexFirst(r, k, i);
      } else if HasKey(d, k') {
        var j := KeyIndex(d, k').value;
        KeyIndexFirst(r, k', j);
      } else {
        forall j | 0 <= j < |r|
          ensures r[j].0 != k'
        {
          if j != i {
            assert r[j] == d[j];
          }
        }
      }
    case None =>
      LookupAppend(d, [(k, v)], k');
  }

  const NamePrefix := "VmMacFilterName"
  const MacPrefix := "VmMacFilterMAC"
  const EnablePrefix := "VmMacFilterEnable"
  const DeletePrefix := "VmMacFilterDelete"

  /** The four per-entry key prefixes. */
  predicate FieldPrefix(p: string)
  {
    p == NamePrefix || p == MacPrefix || p == EnablePrefix || p == DeletePrefix
  }

  /** A per-entry key: the prefix then `str(idx)`. */
  function FieldKey(p: string, idx: nat): string
  {
    p + Decimal(idx)
  }

  /** Two per-entry keys are equal only for the same prefix and index: the
      prefixes differ at their twelfth character, and `str` is one-to-one. */
  lemma FieldKeyInjective(p: string, i: nat, q: string, j: nat)
    requires FieldPrefix(p) && FieldPrefix(q) && FieldKey(p, i) == FieldKey(q, j)
    ensures p == q && i == j
  {
    var k := FieldKey(p, i);
    assert k[11] == p[11] && k[11] == q[11];
    assert p == q;
    assert k[|p|..] == Decimal(i) && k[|q|..] == Decimal(j);
    ParseDecimalOfDecimal(i);
    ParseDecimalOfDecimal(j);
  }

  /** The fields of entry `idx`: its name and lower-cased MAC, then the
      enable and delete flags only when they are set. */
  function EntryFields(idx: nat, e: MacEntry): Form
  {
    [(FieldKey(NamePrefix, idx), Text(e.deviceName)), (FieldKey(MacPrefix, idx), Text(Lower(e.macAddress)))] +
    (if e.enable then [(FieldKey(EnablePrefix, idx), Num(1))] else []) +
    (if e.delete then [(FieldKey(DeletePrefix, idx), Num(1))] else [])
  }

  /** The fields of all entries, entry by entry. */
  function Fields(es: seq<MacEntry>): Form
  {
    if |es| == 0 then [] else Fields(es[..|es| - 1]) + EntryFields(|es| - 1, es[|es| - 1])
  }

  /** Every key of `Fields(es)` belongs to an entry before `|es|`. */
  ghost predicate KeyBelow(k: string, n: nat)
  {
    exists p, j :: FieldPrefix(p) && 0 <= j < n && k == FieldKey(p, j)
  }

  lemma {:induction false} FieldsKeysBelow(es: seq<MacEntry>)
    ensures forall i :: 0 <= i < |Fields(es)| ==> KeyBelow(Fields(es)[i].0, |es|)
  {
    if |es| > 0 {
      var n := |es| - 1;
      FieldsKeysBelow(es[..n]);
      var a: Form := Fields(es[..n]);
      var b: Form := EntryFields(n, es[n]);
      forall i | 0 <= i < |a + b|
        ensures KeyBelow((a + b)[i].0, |es|)
      {
        if i < |a| {
          var p, j :| FieldPrefix(p) && 0 <= j < n && a[i].0 == FieldKey(p, j);
          assert (a + b)[i] == a[i];
        } else {
          assert (a + b)[i] == b[i - |a|];
          var p :| FieldPrefix(p) && b[i - |a|].0 == FieldKey(p, n);
        }
      }
    }
  }

  /** No key of an earlier entry is a key of entry `n`. */
  lemma FreshKey(es: seq<MacEntry>, p: string)
    requires FieldPrefix(p)
    ensures !HasKey(Fields(es), FieldKey(p, |es|))
  {
    FieldsKeysBelow(es);
    if HasKey(Fields(es), FieldKey(p, |es|)) {
      var i :| 0 <= i < |Fields(es)| && Fields(es)[i].0 == FieldKey(p, |es|);
      var q, j :| FieldPrefix(q) && 0 <= j < |es| && Fields(es)[i].0 == FieldKey(q, j);
      FieldKeyInjective(p, |es|, q, j);
    }
  }

  /** No key of entry `n` is a key of another entry. */
  lemma NotInEntryFields(n: nat, e: MacEntry, p: string, i: nat)
    requires FieldPrefix(p) && i != n
    ensures !HasKey(EntryFields(n, e), FieldKey(p, i))
  {
    forall q | FieldPrefix(q)
      ensures FieldKey(q, n) != FieldKey(p, i)
    {
      if FieldKey(q, n) == FieldKey(p, i) {
        FieldKeyInjective(q, n, p, i);
      }
    }
    var d := EntryFields(n, e);
    forall j | 0 <= j < |d|
      ensures d[j].0 != FieldKey(p, i)
    {
      assert d[j].0 in [FieldKey(NamePrefix, n), FieldKey(MacPrefix, n), FieldKey(EnablePrefix, n), FieldKey(DeletePrefix, n)];
    }
  }

  /** The four keys of one entry are distinct: they differ at the twelfth
      character. */
  lemma DistinctFieldKeys(i: nat)
    ensures FieldKey(NamePrefix, i) != FieldKey(MacPrefix, i)
    ensures FieldKey(NamePrefix, i) != FieldKey(EnablePrefix, i)
    ensures FieldKey(NamePrefix, i) != FieldKey(DeletePrefix, i)
    ensures FieldKey(MacPrefix, i) != FieldKey(EnablePrefix, i)
    ensures FieldKey(MacPrefix, i) != FieldKey(DeletePrefix, i)
    ensures FieldKey(EnablePrefix, i) != FieldKey(DeletePrefix, i)
  {
    assert FieldKey(NamePrefix, i)[11] == 'N';
    assert FieldKey(MacPrefix, i)[11] == 'M';
    assert FieldKey(EnablePrefix, i)[11] == 'E';
    assert FieldKey(DeletePrefix, i)[11] == 'D';
  }

  lemma Regroup(a: Form, b: Form, c: Form, d: Form)
    ensures a + b + c + d == a + (b + c + d)
  {
  }

  /** A key stays absent when a pair with another key is added. */
  lemma StillFresh(d: Form, k: string, v: FormValue, k': string)
    requires !HasKey(d, k') && k' != k
    ensures !HasKey(d + [(k, v)], k')
  {
    forall j | 0 <= j < |d| + 1
      ensures (d + [(k, v)])[j].0 != k'
    {
      if j < |d| {
        assert (d + [(k, v)])[j] == d[j];
      }
    }
  }

  /** What one entry's own fields hold. */
  lemma EntryFieldsLookup(i: nat, e: MacEntry)
    ensures Lookup(EntryFields(i, e), FieldKey(NamePrefix, i)) == Some(Text(e.deviceName))
    ensures Lookup(EntryFields(i, e), FieldKey(MacPrefix, i)) == Some(Text(Lower(e.macAddress)))
    ensures Lookup(EntryFields(i, e), FieldKey(EnablePrefix, i)) == if e.enable then Some(Num(1)) else None
    ensures Lookup(EntryFields(i, e), FieldKey(DeletePrefix, i)) == if e.delete then Some(Num(1)) else None
  {
    DistinctFieldKeys(i);
    var kn, km, ke, kd := FieldKey(NamePrefix, i), FieldKey(MacPrefix, i), FieldKey(EnablePrefix, i), FieldKey(DeletePrefix, i);
    var d := EntryFields(i, e);
    assert d[0].0 == kn && d[1].0 == km;
    KeyIndexFirst(d, kn, 0);
    KeyIndexFirst(d, km, 1);
    if e.enable {
      assert d[2].0 == ke;
      KeyIndexFirst(d, ke, 2);
    } else {
      assert !HasKey(d, ke) by {
        if HasKey(d, ke) {
          var j :| 0 <= j < |d| && d[j].0 == ke;
        }
      }
    }
    var at := if e.enable then 3 else 2;
    if e.delete {
      assert d[at].0 == kd;
      KeyIndexFirst(d, kd, at);
    } else {
      assert !HasKey(d, kd) by {
        if HasKey(d, kd) {
          var j :| 0 <= j < |d| && d[j].0 == kd;
        }
      }
    }
  }

  /** Looking up a key of entry `i` in all the fields finds what the entry's
      own fields hold. */
  lemma {:induction false} LookupFieldsAt(es: seq<MacEntry>, p: string, i: nat)
    requires FieldPrefix(p) && i < |es|
    ensures Lookup(Fields(es), FieldKey(p, i)) == Lookup(EntryFields(i, es[i]), FieldKey(p, i))
    decreases |es|
  {
    var n := |es| - 1;
    var a: Form := Fields(es[..n]);
    var b: Form := EntryFields(n, es[n]);
    assert Fields(es) == a + b;
    LookupAppend(a, b, FieldKey(p, i));
    if i == n {
      FreshKey(es[..n], p);
    } else {
      LookupFieldsAt(es[..n], p, i);
      assert es[..n][i] == es[i];
      NotInEntryFields(n, es[n], p, i);
    }
  }

  /** In the saved fields, entry `i` has its name and lower-cased MAC under
      its own keys, and its enable and delete keys are there exactly when the
      flags are set. */
  lemma FieldsMeans(es: seq<MacEntry>, i: nat)
    requires i < |es|
    ensures Lookup(Fields(es), FieldKey(NamePrefix, i)) == Some(Text(es[i].deviceName))
    ensures Lookup(Fields(es), FieldKey(MacPrefix, i)) == Some(Text(Lower(es[i].macAddress)))
    ensures Lookup(Fields(es), FieldKey(EnablePrefix, i)) == if es[i].enable then Some(Num(1)) else None
    ensures Lookup(Fields(es), FieldKey(DeletePrefix, i)) == if es[i].delete then Some(Num(1)) else None
  {
    LookupFieldsAt(es, NamePrefix, i);
    LookupFieldsAt(es, MacPrefix, i);
    LookupFieldsAt(es, EnablePrefix, i);
    LookupFieldsAt(es, DeletePrefix, i);
    EntryFieldsLookup(i, es[i]);
  }

  /** One turn of the loop of `save`: putting entry `|es|`'s fields, each
      under a key not seen before, appends exactly its fields. */
  lemma SaveStep(all: seq<MacEntry>, idx: nat)
    requires idx < |all|
    ensures var e := all[idx];
      var d1 := Put(Fields(all[..idx]), FieldKey(NamePrefix, idx), Text(e.deviceName));
      var d2 := Put(d1, FieldKey(MacPrefix, idx), Text(Lower(e.macAddress)));
      var d3 := if e.enable then Put(d2, FieldKey(EnablePrefix, idx), Num(1)) else d2;
      var d4 := if e.delete then Put(d3, FieldKey(DeletePrefix, idx), Num(1)) else d3;
      d4 == Fields(all[..idx + 1])
  {
    var es, e := all[..idx], all[idx];
    var d := Fields(es);
    DistinctFieldKeys(idx);
    FreshKey(es, NamePrefix);
    FreshKey(es, MacPrefix);
    FreshKey(es, EnablePrefix);
    FreshKey(es, DeletePrefix);
    var kn, km, ke, kd := FieldKey(NamePrefix, idx), FieldKey(MacPrefix, idx), FieldKey(EnablePrefix, idx), FieldKey(DeletePrefix, idx);
    var pn, pm := (kn, Text(e.deviceName)), (km, Text(Lower(e.macAddress)));
    var d1 := Put(d, kn, pn.1);
    assert d1 == d + [pn];
    StillFresh(d, kn, pn.1, km);
    StillFresh(d, kn, pn.1, ke);
    StillFresh(d, kn, pn.1, kd);
    var d2 := Put(d1, km, pm.1);
    assert d2 == d + [pn, pm];
    StillFresh(d1, km, pm.1, ke);
    StillFresh(d1, km, pm.1, kd);
    var en: Form := if e.enable then [(ke, Num(1))] else [];
    var d3 := if e.enable then Put(d2, ke, Num(1)) else d2;
    assert d3 == d2 + en;
    if e.enable {
      StillFresh(d2, ke, Num(1), kd);
    }
    assert !HasKey(d3, kd);
    var de: Form := if e.delete then [(kd, Num(1))] else [];
    var d4 := if e.delete then Put(d3, kd, Num(1)) else d3;
    assert d4 == d3 + de;
    assert EntryFields(idx, e) == [pn, pm] + en + de;
    Regroup(d, [pn, pm], en, de);
    assert all[..idx + 1][..idx] == es;
  }

  const ResetKey := "VmMACFilteringResetDefault"
  const ApplyKey := "VmMACFilteringApplyValue"

  /** The form `save` posts: every entry's fields, then the page's magic field
      set to 0, the reset field to 0 and the apply field to 1. */
  function FormData(es: seq<MacEntry>, magic: string): Form
  {
    Put(Put(Put(Fields(es), magic, Num(0)), ResetKey, Num(0)), ApplyKey, Num(1))
  }

  /** The posted form: entry `i`'s fields as `FieldsMeans` says (unless the
      magic field has the same name), the magic field 0, the reset field 0
      and the apply field 1. */
  lemma FormDataMeans(es: seq<MacEntry>, magic: string, i: nat, p: string)
    requires i < |es| && FieldPrefix(p) && magic != FieldKey(p, i)
    ensures Lookup(FormData(es, magic), ApplyKey) == Some(Num(1))
    ensures Lookup(FormData(es, magic), ResetKey) == Some(Num(0))
    ensures magic != ApplyKey ==> Lookup(FormData(es, magic), magic) == Some(Num(0))
    ensures Lookup(FormData(es, magic), FieldKey(p, i)) == Lookup(EntryFields(i, es[i]), FieldKey(p, i))
  {
    var d0 := Fields(es);
    var d1 := Put(d0, magic, Num(0));
    var d2 := Put(d1, ResetKey, Num(0));
    var k := FieldKey(p, i);
    assert k[3] == 'a' && ResetKey[3] == 'A' && ApplyKey[3] == 'A';
    LookupPut(d2, ApplyKey, Num(1), ApplyKey);
    LookupPut(d2, ApplyKey, Num(1), ResetKey);
    LookupPut(d1, ResetKey, Num(0), ResetKey);
    LookupPut(d2, ApplyKey, Num(1), magic);
    LookupPut(d1, ResetKey, Num(0), magic);
    LookupPut(d0, magic, Num(0), magic);
    LookupPut(d2, ApplyKey, Num(1), k);
    LookupPut(d1, ResetKey, Num(0), k);
    LookupPut(d0, magic, Num(0), k);
    LookupFieldsAt(es, p, i);
  }

  /** Some entry has the MAC `mac`, compared case-insensitively. */
  predicate MacTaken(es: seq<MacEntry>, mac: string)
  {
    exists k :: 0 <= k < |es| && Lower(es[k].macAddress) == Lower(mac)
  }

  class MacFilteringPage {
    var entries: seq<MacEntry>
    var magicName: string

    ghost predicate Valid()
      reads this
    {
      UniqueNames(entries)
    }

    /** The page as its constructor leaves it once the filter list table has
        been read: the entries `_parse_entries` makes of the rows. */
    constructor(rows: seq<FilterRow>, magic: string)
      ensures Valid() && entries == Parsed(rows) && magicName == magic
    {
      var es := ParseEntries(rows);
      entries := es;
      magicName := magic;
    }

    /** `add_entry`: refused on a full table (30 entries), a known device name
        or a MAC already present in any case; otherwise one entry is appended. */
    method AddEntry(name: string, mac: string, enable: bool) returns (r: Outcome<string>)
      requires Valid()
      modifies this
      ensures Valid() && magicName == old(magicName)
      ensures r.Pass? <==> |old(entries)| < 30 && !HasName(old(entries), name) && !MacTaken(old(entries), mac)
      ensures |old(entries)| >= 30 ==> r == Fail("Cannot have more than 30 entries")
      ensures |old(entries)| < 30 && HasName(old(entries), name) ==>
        r == Fail("There is already an entry for " + name)
      ensures (|old(entries)| < 30 && !HasName(old(entries), name) && MacTaken(old(entries), mac)) ==>
        r == Fail("There is already an entry for " + mac)
      ensures r.Fail? ==> entries == old(entries)
      ensures r.Pass? ==> entries == old(entries) + [MacEntry(name, Lower(mac), enable, false)]
    {
      if |entries| >= 30 {
        return Fail("Cannot have more than 30 entries");
      }
      if IndexOf(entries, name).Some? {
        return Fail("There is already an entry for " + name);
      }
      var k := 0;
      while k < |entries|
        invariant 0 <= k <= |entries|
        invariant forall j :: 0 <= j < k ==> Lower(entries[j].macAddress) != Lower(mac)
      {
        if Lower(entries[k].macAddress) == Lower(mac) {
          return Fail("There is already an entry for " + mac);
        }
        k := k + 1;
      }
      entries := PutEntry(entries, MacEntry(name, Lower(mac), enable, false));
      return Pass;
    }

    /** `delete_entry`: refused for an unknown name; otherwise the entry is
        marked for deletion in place. */
    method DeleteEntry(name: string) returns (r: Outcome<string>)
      requires Valid()
      modifies this
      ensures Valid() && magicName == old(magicName)
      ensures r.Fail? <==> !HasName(old(entries), name)
      ensures r.Fail? ==> r.error == "There is no entry for " + name && entries == old(entries)
      ensures r.Pass? ==> entries == Marked(old(entries), name)
    {
      var i := IndexOf(entries, name);
      if i.None? {
        return Fail("There is no entry for " + name);
      }
      ghost var before := entries;
      if !entries[i.value].delete {
        entries := entries[i.value := entries[i.value].(delete := true)];
      }
      assert entries == Marked(before, name);
      return Pass;
    }

    /** `enable_entry`: refused for an unknown name; otherwise the entry is
        enabled in place. */
    method EnableEntry(name: string) returns (r: Outcome<string>)
      requires Valid()
      modifies this
      ensures Valid() && magicName == old(magicName)
      ensures r.Fail? <==> !HasName(old(entries), name)
      ensures r.Fail? ==> r.error == "There is no entry for " + name && entries == old(entries)
      ensures r.Pass? ==> entries == Switched(old(entries), name, true)
    {
      var i := IndexOf(entries, name);
      if i.None? {
        return Fail("There is no entry for " + name);
      }
      ghost var before := entries;
      if !entries[i.value].enable {
        entries := entries[i.value := entries[i.value].(enable := true)];
      }
      assert entries == Switched(before, name, true);
      return Pass;
    }

    /** `disable_entry`: refused for an unknown name; otherwise the entry is
        disabled in place. */
    method DisableEntry(name: string) returns (r: Outcome<string>)
      requires Valid()
      modifies this
      ensures Valid() && magicName == old(magicName)
      ensures r.Fail? <==> !HasName(old(entries), name)
      ensures r.Fail? ==> r.error == "There is no entry for " + name && entries == old(entries)
      ensures r.Pass? ==> entries == Switched(old(entries), name, false)
    {
      var i := IndexOf(entries, name);
      if i.None? {
        return Fail("There is no entry for " + name);
      }
      ghost var before := entries;
      if entries[i.value].enable {
        entries := entries[i.value := entries[i.value].(enable := false)];
      }
      assert entries == Switched(before, name, false);
      return Pass;
    }

    /** `save` up to the POST: the form data, built field by field. */
    method Save() returns (data: Form)
      ensures data == FormData(entries, magicName)
    {
      data := [];
      var idx := 0;
      while idx < |entries|
        invariant 0 <= idx <= |entries|
        invariant data == Fields(entries[..idx])
      {
        var e := entries[idx];
        SaveStep(entries, idx);
        data := Put(data, FieldKey(NamePrefix, idx), Text(e.deviceName));
        data := Put(data, FieldKey(MacPrefix, idx), Text(Lower(e.macAddress)));
        if e.enable {
          data := Put(data, FieldKey(EnablePrefix, idx), Num(1));
        }
        if e.delete {
          data := Put(data, FieldKey(DeletePrefix, idx), Num(1));
        }
        idx := idx + 1;
      }
      assert entries[..idx] == entries;
      data := Put(data, magicName, Num(0));
      data := Put(data, ResetKey, Num(0));
      data := Put(data, ApplyKey, Num(1));
    }
  }

  // ---------------------------------------------------------------------------
  // get_table_from_list and the ignored columns of get_table_from_table
  // ---------------------------------------------------------------------------

  /** The rows `get_table_from_list` makes of the quoted list text: none for
      an empty text, otherwise the `|,|`-separated chunks, each split on
      `}-{`. */
  function ListRows(data: string): (rows: seq<seq<string>>)
    ensures data == "" ==> rows == []
    ensures data != "" ==> |rows| == |Split(data, "|,|")|
    ensures data != "" ==> forall k :: 0 <= k < |rows| ==>
      rows[k] == Split(Split(data, "|,|")[k], "}-{") && |rows[k]| >= 1 &&
      Join(rows[k], "}-{") == Split(data, "|,|")[k]
    ensures forall k, j :: 0 <= k < |rows| && 0 <= j < |rows[k]| ==>
      !Contains(rows[k][j], "}-{") && !Contains(rows[k][j], "|,|")
  {
    if data == "" then []
    else
      var chunks := Split(data, "|,|");
      var rows := seq(|chunks|, k requires 0 <= k < |chunks| => Split(chunks[k], "}-{"));
      assert forall k, j :: 0 <= k < |rows| && 0 <= j < |rows[k]| ==> !Contains(rows[k][j], "|,|") by {
        forall k, j | 0 <= k < |rows| && 0 <= j < |rows[k]| ensures !Contains(rows[k][j], "|,|") {
          PieceAvoids(rows[k], "}-{", j, "|,|");
        }
      }
      rows
  }

  /** The list text a table's rows come from: cells joined by `}-{`, rows by
      `|,|`. */
  function ListText(rows: seq<seq<string>>): string
  {
    Join(seq(|rows|, k requires 0 <= k < |rows| => Join(rows[k], "}-{")), "|,|")
  }

  /** Joining the rows back gives the list text again. */
  lemma ListRowsRoundTrip(data: string)
    requires data != ""
    ensures ListText(ListRows(data)) == data
  {
    var rows := ListRows(data);
    var chunks := Split(data, "|,|");
    assert seq(|rows|, k requires 0 <= k < |rows| => Join(rows[k], "}-{")) == chunks;
  }

  /** `s` without the positions in `gone`, order kept. */
  function Keep<T>(s: seq<T>, gone: set<nat>): (r: seq<T>)
    ensures |r| <= |s|
  {
    if |s| == 0 then []
    else Keep(s[..|s| - 1], gone) + (if |s| - 1 in gone then [] else [s[|s| - 1]])
  }

  /** `s.pop(i)`. */
  function Pop<T>(s: seq<T>, i: nat): (r: seq<T>)
    requires i < |s|
    ensures |r| == |s| - 1
    ensures forall j :: 0 <= j < i ==> r[j] == s[j]
    ensures forall j :: i <= j < |r| ==> r[j] == s[j + 1]
  {
    s[..i] + s[i + 1..]
  }

  /** Popping a position below every position already dropped drops it from
      the original sequence too. */
  lemma {:induction false} PopKeep<T>(s: seq<T>, gone: set<nat>, i: nat)
    requires i < |s| && i !in gone && forall g :: g in gone ==> g > i
    ensures i < |Keep(s, gone)|
    ensures Pop(Keep(s, gone), i) == Keep(s, gone + {i})
    decreases |s|
  {
    var n := |s| - 1;
    if n == i {
      assert Keep(s[..n], gone) == s[..n] by {
        KeepNone(s[..n], gone);
      }
      assert Keep(s[..n], gone + {i}) == s[..n] by {
        KeepNone(s[..n], gone + {i});
      }
    } else {
      PopKeep(s[..n], gone, i);
      assert s[..n][..n] == s[..n];
      var tail: seq<T> := if n in gone then [] else [s[n]];
      assert Keep(s, gone) == Keep(s[..n], gone) + tail;
      assert Keep(s, gone + {i}) == Keep(s[..n], gone + {i}) + tail;
    }
  }

  /** Positions at or past the end are not in the sequence. */
  lemma {:induction false} KeepNone<T>(s: seq<T>, gone: set<nat>)
    requires forall g :: g in gone ==> g >= |s|
    ensures Keep(s, gone) == s
    decreases |s|
  {
    if |s| > 0 {
      KeepNone(s[..|s| - 1], gone);
    }
  }

  /** The first `k` columns to drop. */
  ghost function Gone(cols: seq<nat>, k: nat): set<nat>
    requires k <= |cols|
  {
    set i | 0 <= i < k :: cols[i]
  }

  /** `sorted(ignore_cols, reverse=True)` for distinct column numbers. */
  predicate StrictlyDescending(cols: seq<nat>)
  {
    forall i, j :: 0 <= i < j < |cols| ==> cols[i] > cols[j]
  }

  /** The body rows `get_table_from_table` keeps: a body that is one empty
      cell is no rows at all. */
  function BodyRows(rows: seq<seq<string>>): seq<seq<string>>
  {
    if rows == [[""]] then [] else rows
  }

  /** `for row in rows: row.pop(idx)`. */
  method PopEach(rows: seq<seq<string>>, c: nat) returns (next: seq<seq<string>>)
    requires forall q :: 0 <= q < |rows| ==> c < |rows[q]|
    ensures |next| == |rows| && forall q :: 0 <= q < |rows| ==> next[q] == Pop(rows[q], c)
  {
    next := [];
    var r := 0;
    while r < |rows|
      invariant 0 <= r <= |rows|
      invariant |next| == r
      invariant forall q :: 0 <= q < r ==> next[q] == Pop(rows[q], c)
    {
      next := next + [Pop(rows[r], c)];
      r := r + 1;
    }
  }

  /** The end of `get_table_from_table`: a body of one empty cell becomes no
      rows, then each ignored column is popped, largest first, from the
      headers and from every row, which drops exactly those columns and keeps
      the others in order. */
  method RemoveColumns(headers: seq<string>, rows: seq<seq<string>>, cols: seq<nat>)
    returns (hs: seq<string>, rs: seq<seq<string>>)
    requires StrictlyDescending(cols)
    requires forall i :: 0 <= i < |cols| ==> cols[i] < |headers|
    requires forall r, i :: 0 <= r < |BodyRows(rows)| && 0 <= i < |cols| ==> cols[i] < |BodyRows(rows)[r]|
    ensures hs == Keep(headers, set i | 0 <= i < |cols| :: cols[i])
    ensures rows == [[""]] ==> rs == []
    ensures rows != [[""]] ==> (|rs| == |rows| &&
      forall r :: 0 <= r < |rows| ==> rs[r] == Keep(rows[r], set i | 0 <= i < |cols| :: cols[i]))
  {
    var body := if rows == [[""]] then [] else rows;
    assert body == BodyRows(rows);
    hs := headers;
    rs := body;
    assert Gone(cols, 0) == {};
    KeepNone(headers, {});
    forall r | 0 <= r < |body| ensures Keep(body[r], {}) == body[r] {
      KeepNone(body[r], {});
    }
    var k := 0;
    while k < |cols|
      invariant 0 <= k <= |cols|
      invariant hs == Keep(headers, Gone(cols, k))
      invariant |rs| == |body|
      invariant forall r :: 0 <= r < |body| ==> rs[r] == Keep(body[r], Gone(cols, k))
    {
      var c := cols[k];
      ghost var gone := Gone(cols, k);
      assert Gone(cols, k + 1) == gone + {c};
      assert c !in gone && forall g :: g in gone ==> g > c;
      PopKeep(headers, gone, c);
      hs := Pop(hs, c);
      forall q | 0 <= q < |body| ensures c < |rs[q]| && Pop(rs[q], c) == Keep(body[q], gone + {c}) {
        PopKeep(body[q], gone, c);
      }
      rs := PopEach(rs, c);
      k := k + 1;
    }
  }
}
