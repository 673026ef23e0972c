/** The logic of `python/superhubcli.py` around the MAC filtering page: the
    MAC address argument check, the copy of the command-line options into the
    context object, and the batch apply of `mac delete/enable/disable` to the
    entries whose names match a pattern. Glob matching is a parameter. */
module SuperHubCli {
  import opened Wrappers
  import opened Strings
  import opened MacFilter

  // ---------------------------------------------------------------------------
  // validate_mac_address
  // ---------------------------------------------------------------------------

  const MacFormatError := "MAC addresses must be in format xx:xx:xx:xx:xx:xx"

  /** The regular expression class `[0-9A-F]`. */
  predicate UpperHexClass(c: char)
  {
    '0' <= c <= '9' || 'A' <= c <= 'F'
  }

  /** A hexadecimal digit in either case. */
  predicate HexDigit(c: char)
  {
    '0' <= c <= '9' || 'a' <= c <= 'f' || 'A' <= c <= 'F'
  }

  /** `re.match` of six two-character groups of class `cls` joined by `:`:
      the first 17 characters have that shape, whatever follows them. */
  predicate MacShaped(v: string, cls: char -> bool)
  {
    |v| >= 17 &&
    (forall g :: 0 <= g < 6 ==> cls(v[3 * g]) && cls(v[3 * g + 1])) &&
    (forall g :: 0 <= g < 5 ==> v[3 * g + 2] == ':')
  }

  /** `validate_mac_address` as written: the value is lower-cased first and
      then matched against the upper-case class `[0-9A-F]`. */
  function ValidateMacAddressAsWritten(value: string): (r: Result<string, string>)
    ensures r.Success? ==> r.value == Lower(value)
    ensures r.Failure? ==> r.error == MacFormatError
  {
    var v := Lower(value);
    if MacShaped(v, UpperHexClass) then Success(v) else Failure(MacFormatError)
  }

  /** After lower-casing no character is in `A-F`, so the check as written
      accepts exactly the values whose first 17 characters are decimal digit
      pairs separated by colons. */
  lemma AsWrittenAcceptsDigitsOnly(value: string)
    ensures ValidateMacAddressAsWritten(value).Success? <==> MacShaped(value, IsDigit)
  {
    var v := Lower(value);
    if |value| >= 17 {
      assert forall i :: 0 <= i < 17 ==> v[i] == LowerChar(value[i]);
    }
  }

  /** `validate_mac_address` with the class that evidently was meant: the
      lower-cased value must start with six pairs of hexadecimal digits. */
  function ValidateMacAddress(value: string): (r: Result<string, string>)
    ensures r.Success? ==> r.value == Lower(value)
    ensures r.Failure? ==> r.error == MacFormatError
  {
    var v := Lower(value);
    if MacShaped(v, HexDigit) then Success(v) else Failure(MacFormatError)
  }

  /** The corrected check accepts a value exactly when its first 17
      characters are hexadecimal digit pairs, in any case, separated by
      colons. */
  lemma ValidateMacAddressMeans(value: string)
    ensures ValidateMacAddress(value).Success? <==> MacShaped(value, HexDigit)
  {
    var v := Lower(value);
    if |value| >= 17 {
      assert forall i :: 0 <= i < 17 ==> v[i] == LowerChar(value[i]);
    }
  }

  /** A MAC with hexadecimal letters is refused as written ... */
  lemma HexLettersRefused()
    ensures ValidateMacAddressAsWritten("aa:bb:cc:dd:ee:ff").Failure?
  {
    var s := "aa:bb:cc:dd:ee:ff";
    AsWrittenAcceptsDigitsOnly(s);
    assert !IsDigit(s[3 * 0]);
  }

  /** ... and accepted by the corrected check. */
  lemma HexLettersAccepted()
    ensures ValidateMacAddress("aa:bb:cc:dd:ee:ff") == Success("aa:bb:cc:dd:ee:ff")
  {
    var s := "aa:bb:cc:dd:ee:ff";
    Accepted(s, 'a', 'b', 'c', 'd', 'e', 'f');
  }

  /** The match is anchored only at the start: anything may follow an
      accepted MAC, for both checks. */
  lemma ValidatePrefixOnly(s: string, t: string)
    ensures ValidateMacAddressAsWritten(s).Success? ==> ValidateMacAddressAsWritten(s + t).Success?
    ensures ValidateMacAddress(s).Success? ==> ValidateMacAddress(s + t).Success?
  {
    var a, b := Lower(s), Lower(s + t);
    if |s| >= 17 {
      forall i | 0 <= i < 17
        ensures b[i] == a[i]
      {
        assert (s + t)[i] == s[i];
      }
    }
  }

  /** A string without upper-case letters is its own lower-case form. */
  lemma LowerOfLowerCase(s: string)
    requires forall i :: 0 <= i < |s| ==> !('A' <= s[i] <= 'Z')
    ensures Lower(s) == s
  {
  }

  /** The three values the MAC tests expect to be refused. */
  lemma ValidateRefusesTestValues()
    ensures ValidateMacAddress("").Failure? && ValidateMacAddressAsWritten("").Failure?
    ensures ValidateMacAddress("abc").Failure? && ValidateMacAddressAsWritten("abc").Failure?
    ensures ValidateMacAddress("44:44:44:4g:44:44").Failure?
    ensures ValidateMacAddressAsWritten("44:44:44:4g:44:44").Failure?
  {
    var bad := "44:44:44:4g:44:44";
    AsWrittenAcceptsDigitsOnly(bad);
    ValidateMacAddressMeans(bad);
    assert !HexDigit(bad[3 * 3 + 1]);
  }

  /** The value the MAC tests add is accepted and returned as it is. */
  lemma ValidateAcceptsTestValue()
    ensures ValidateMacAddress("11:11:11:11:11:11") == Success("11:11:11:11:11:11")
    ensures ValidateMacAddressAsWritten("11:11:11:11:11:11") == Success("11:11:11:11:11:11")
  {
    var good := "11:11:11:11:11:11";
    Accepted(good, '1', '1', '1', '1', '1', '1');
    AsWrittenAcceptsDigitsOnly(good);
    assert MacShaped(good, IsDigit) by {
      PairsShaped(good, '1', '1', '1', '1', '1', '1', IsDigit);
    }
  }

  /** The MAC `aa:bb:cc:dd:ee:ff` spelled with the six characters given, each
      doubled. */
  predicate DoubledPairs(s: string, a: char, b: char, c: char, d: char, e: char, f: char)
  {
    s == [a, a, ':', b, b, ':', c, c, ':', d, d, ':', e, e, ':', f, f]
  }

  /** Doubled pairs of characters of class `cls` have the MAC shape. */
  lemma PairsShaped(s: string, a: char, b: char, c: char, d: char, e: char, f: char,
                    cls: char -> bool)
    requires DoubledPairs(s, a, b, c, d, e, f)
    requires cls(a) && cls(b) && cls(c) && cls(d) && cls(e) && cls(f)
    ensures MacShaped(s, cls)
  {
    forall g | 0 <= g < 6
      ensures cls(s[3 * g]) && cls(s[3 * g + 1])
    {
      if g == 0 {} else if g == 1 {} else if g == 2 {} else if g == 3 {} else if g == 4 {} else {}
    }
    forall g | 0 <= g < 5
      ensures s[3 * g + 2] == ':'
    {
      if g == 0 {} else if g == 1 {} else if g == 2 {} else if g == 3 {} else {}
    }
  }

  /** A hexadecimal digit without upper-case letters. */
  predicate LowerHex(c: char)
  {
    '0' <= c <= '9' || 'a' <= c <= 'f'
  }

  /** Doubled pairs of lower-case hexadecimal digits are accepted unchanged. */
  lemma Accepted(s: string, a: char, b: char, c: char, d: char, e: char, f: char)
    requires DoubledPairs(s, a, b, c, d, e, f)
    requires LowerHex(a) && LowerHex(b) && LowerHex(c) && LowerHex(d) && LowerHex(e) && LowerHex(f)
    ensures ValidateMacAddress(s) == Success(s)
  {
    PairsShaped(s, a, b, c, d, e, f, HexDigit);
    ValidateMacAddressMeans(s);
    forall i | 0 <= i < |s|
      ensures !('A' <= s[i] <= 'Z')
    {
      assert s[i] in [a, b, c, d, e, f] || s[i] == ':';
    }
    LowerOfLowerCase(s);
  }

  // ---------------------------------------------------------------------------
  // fill_context
  // ---------------------------------------------------------------------------

  /** A value handed over by the command line. */
  datatype Value = Str(s: string) | Flag(b: bool) | Other

  /** `Context.__slots__`. */
  const Slots: seq<string> := ["host", "password", "keep_logged_in", "verbose"]

  /** The value the last pair with key `k` carries, if any. */
  function LastFor(items: seq<(string, Value)>, k: string): Option<Value>
  {
    if |items| == 0 then None
    else if items[|items| - 1].0 == k then Some(items[|items| - 1].1)
    else LastFor(items[..|items| - 1], k)
  }

  /** `k` gets nothing exactly when no pair has it, and otherwise gets the
      value of the last pair that has it. */
  lemma {:induction false} LastForMeans(items: seq<(string, Value)>, k: string)
    ensures LastFor(items, k).None? <==> forall i :: 0 <= i < |items| ==> items[i].0 != k
    ensures LastFor(items, k).Some? ==> exists i :: (0 <= i < |items| &&
      items[i] == (k, LastFor(items, k).value) && forall j :: i < j < |items| ==> items[j].0 != k)
  {
    if |items| > 0 {
      var n := |items| - 1;
      LastForMeans(items[..n], k);
      assert forall i :: 0 <= i < n ==> items[..n][i] == items[i];
    }
  }

  /** A pair with another key does not change what `k` gets. */
  lemma LastForOther(items: seq<(string, Value)>, k: string, v: Value, key: string)
    requires k != key
    ensures LastFor(items + [(k, v)], key) == LastFor(items, key)
  {
    assert (items + [(k, v)])[..|items|] == items;
  }

  /** One more pair: its own key now gets its value, other keys keep theirs. */
  lemma LastForStep(items: seq<(string, Value)>, i: nat, key: string)
    requires i < |items|
    ensures LastFor(items[..i + 1], key) ==
      if items[i].0 == key then Some(items[i].1) else LastFor(items[..i], key)
  {
    assert items[..i + 1][..i] == items[..i];
  }

  /** The value a slot ends up with: the last one given, else the old one. */
  function Updated(old_: Option<Value>, given: Option<Value>): Option<Value>
  {
    if given.Some? then given else old_
  }

  class Context {
    var host: Option<Value>
    var password: Option<Value>
    var keepLoggedIn: Option<Value>
    var verbose: Option<Value>

    /** A context with no slot set yet. */
    constructor()
      ensures host == None && password == None && keepLoggedIn == None && verbose == None
    {
      host, password, keepLoggedIn, verbose := None, None, None, None;
    }

    /** `fill_context`: every pair whose key is a slot sets that slot, in
        order; every other key is ignored. */
    method FillContext(items: seq<(string, Value)>)
      modifies this
      ensures host == Updated(old(host), LastFor(items, "host"))
      ensures password == Updated(old(password), LastFor(items, "password"))
      ensures keepLoggedIn == Updated(old(keepLoggedIn), LastFor(items, "keep_logged_in"))
      ensures verbose == Updated(old(verbose), LastFor(items, "verbose"))
    {
      var i := 0;
      while i < |items|
        invariant 0 <= i <= |items|
        invariant host == Updated(old(host), LastFor(items[..i], "host"))
        invariant password == Updated(old(password), LastFor(items[..i], "password"))
        invariant keepLoggedIn == Updated(old(keepLoggedIn), LastFor(items[..i], "keep_logged_in"))
        invariant verbose == Updated(old(verbose), LastFor(items[..i], "verbose"))
      {
        var (k, v) := items[i];
        LastForStep(items, i, "host");
        LastForStep(items, i, "password");
        LastForStep(items, i, "keep_logged_in");
        LastForStep(items, i, "verbose");
        if k in Slots {
          if k == "host" {
            host := Some(v);
          } else if k == "password" {
            password := Some(v);
          } else if k == "keep_logged_in" {
            keepLoggedIn := Some(v);
          } else {
            verbose := Some(v);
          }
        }
        i := i + 1;
      }
      assert items[..i] == items;
    }
  }

  /** Keys outside the slots change nothing: a context filled from the items
      with such a pair appended ends up as without it. */
  lemma FillContextIgnoresOthers(items: seq<(string, Value)>, k: string, v: Value)
    requires k !in Slots
    ensures forall s :: s in Slots ==> LastFor(items + [(k, v)], s) == LastFor(items, s)
  {
    forall s | s in Slots
      ensures LastFor(items + [(k, v)], s) == LastFor(items, s)
    {
      LastForOther(items, k, v, s);
    }
  }

  // ---------------------------------------------------------------------------
  // apply_mac
  // ---------------------------------------------------------------------------

  /** A name is still there once the page method has been applied to some
      names. */
  lemma AppliedPresent(es: seq<MacEntry>, op: EntryOp, done: set<string>, n: string)
    requires HasName(es, n)
    ensures HasName(Applied(es, op, done), n)
  {
    var k :| 0 <= k < |es| && es[k].deviceName == n;
    assert Applied(es, op, done)[k].deviceName == n;
  }

  /** The page method `apply_mac` is given. */
  datatype EntryOp = DeleteOp | EnableOp | DisableOp

  /** What the page method does to the entry it names. */
  function ApplyOne(e: MacEntry, op: EntryOp): MacEntry
  {
    match op
    case DeleteOp => e.(delete := true)
    case EnableOp => e.(enable := true)
    case DisableOp => e.(enable := false)
  }

  /** The names of the entries that match at least one pattern (`fnmatch` is
      the parameter `matches`). */
  function Selected(es: seq<MacEntry>, patterns: seq<string>, matches: (string, string) -> bool): set<string>
  {
    set k, p | 0 <= k < |es| && p in patterns && matches(es[k].deviceName, p) :: es[k].deviceName
  }

  /** A name is selected exactly when an entry has it and some pattern
      matches it. */
  lemma SelectedMeans(es: seq<MacEntry>, patterns: seq<string>, matches: (string, string) -> bool, n: string)
    ensures n in Selected(es, patterns, matches) <==>
      HasName(es, n) && exists p :: p in patterns && matches(n, p)
  {
    if HasName(es, n) && exists p :: p in patterns && matches(n, p) {
      var k :| 0 <= k < |es| && es[k].deviceName == n;
      var p :| p in patterns && matches(n, p);
      assert matches(es[k].deviceName, p);
    }
  }

  /** A pattern no entry matches has no effect. */
  lemma UnmatchedPatternIgnored(es: seq<MacEntry>, patterns: seq<string>, matches: (string, string) -> bool, q: string)
    requires forall k :: 0 <= k < |es| ==> !matches(es[k].deviceName, q)
    ensures Selected(es, patterns + [q], matches) == Selected(es, patterns, matches)
  {
    forall n | n in Selected(es, patterns + [q], matches)
      ensures n in Selected(es, patterns, matches)
    {
      var k, p :| 0 <= k < |es| && p in patterns + [q] && matches(es[k].deviceName, p) && n == es[k].deviceName;
      assert p in patterns;
    }
    forall n | n in Selected(es, patterns, matches)
      ensures n in Selected(es, patterns + [q], matches)
    {
      var k, p :| 0 <= k < |es| && p in patterns && matches(es[k].deviceName, p) && n == es[k].deviceName;
      assert p in patterns + [q];
    }
  }

  /** The entries once the method has been applied to every name in `names`:
      each such entry changed once, positions and other entries kept. */
  function Applied(es: seq<MacEntry>, op: EntryOp, names: set<string>): (r: seq<MacEntry>)
    ensures |r| == |es|
    ensures forall k :: 0 <= k < |es| ==> r[k] == if es[k].deviceName in names then ApplyOne(es[k], op) else es[k]
  {
    seq(|es|, k requires 0 <= k < |es| => if es[k].deviceName in names then ApplyOne(es[k], op) else es[k])
  }

  /** One more call of the page method, on a name not yet done, extends the
      applied set by that name. */
  lemma AppliedStep(es: seq<MacEntry>, op: EntryOp, names: set<string>, n: string)
    ensures SingleOp(Applied(es, op, names), op, n) == Applied(es, op, names + {n})
  {
  }

  /** The entries after one call of the page method on `n`. */
  function SingleOp(es: seq<MacEntry>, op: EntryOp, n: string): seq<MacEntry>
  {
    match op
    case DeleteOp => Marked(es, n)
    case EnableOp => Switched(es, n, true)
    case DisableOp => Switched(es, n, false)
  }

  /** `method(page, dn)` for a name the page has: it cannot fail. */
  method ApplyOp(page: MacFilteringPage, op: EntryOp, dn: string)
    requires page.Valid() && HasName(page.entries, dn)
    modifies page
    ensures page.Valid() && page.magicName == old(page.magicName)
    ensures page.entries == SingleOp(old(page.entries), op, dn)
  {
    var r: Outcome<string>;
    match op {
      case DeleteOp => r := page.DeleteEntry(dn);
      case EnableOp => r := page.EnableEntry(dn);
      case DisableOp => r := page.DisableEntry(dn);
    }
  }

  /** `apply_mac` after the page is read: the page method is called once for
      each distinct selected name, then the page is saved. */
  method ApplyMac(page: MacFilteringPage, patterns: seq<string>, matches: (string, string) -> bool, op: EntryOp)
    returns (data: Form)
    requires page.Valid()
    modifies page
    ensures page.Valid() && page.magicName == old(page.magicName)
    ensures page.entries == Applied(old(page.entries), op, Selected(old(page.entries), patterns, matches))
    ensures data == FormData(page.entries, page.magicName)
  {
    var dns := Selected(page.entries, patterns, matches);
    forall n | n in dns
      ensures HasName(page.entries, n)
    {
      SelectedMeans(page.entries, patterns, matches, n);
    }
    ApplyToNames(page, op, dns);
    data := page.Save();
  }

  /** The loop of `apply_mac`: the page method once for each name, in any
      order. */
  method ApplyToNames(page: MacFilteringPage, op: EntryOp, dns: set<string>)
    requires page.Valid() && forall n :: n in dns ==> HasName(page.entries, n)
    modifies page
    ensures page.Valid() && page.magicName == old(page.magicName)
    ensures page.entries == Applied(old(page.entries), op, dns)
  {
    ghost var start := page.entries;
    var todo := dns;
    while todo != {}
      invariant todo <= dns
      invariant page.Valid() && page.magicName == old(page.magicName)
      invariant page.entries == Applied(start, op, dns - todo)
      decreases |todo|
    {
      var dn :| dn in todo;
      AppliedPresent(start, op, dns - todo, dn);
      AppliedStep(start, op, dns - todo, dn);
      ApplyOp(page, op, dn);
      MovedToDone(dns, todo, dn);
      todo := todo - {dn};
    }
  }

  /** Taking one name out of the names still to do adds it to those done. */
  lemma MovedToDone(dns: set<string>, todo: set<string>, dn: string)
    requires todo <= dns && dn in todo
    ensures (dns - todo) + {dn} == dns - (todo - {dn})
  {
  }

  /** `add_mac`: the MAC is checked (with the corrected class), the entry
      added and the page saved; a refused MAC or entry gives its message. */
  method AddMac(page: MacFilteringPage, name: string, mac: string, enable: bool) returns (r: Result<Form, string>)
    requires page.Valid()
    modifies page
    ensures page.Valid() && page.magicName == old(page.magicName)
    ensures ValidateMacAddress(mac).Failure? ==> r == Failure(MacFormatError) && page.entries == old(page.entries)
    ensures ValidateMacAddress(mac).Success? ==>
      (r.Success? <==> |old(page.entries)| < 30 && !HasName(old(page.entries), name) && !MacTaken(old(page.entries), mac))
    ensures ValidateMacAddress(mac).Success? && |old(page.entries)| >= 30 ==>
      r == Failure("Cannot have more than 30 entries")
    ensures ValidateMacAddress(mac).Success? && |old(page.entries)| < 30 && HasName(old(page.entries), name) ==>
      r == Failure("There is already an entry for " + name)
    ensures (ValidateMacAddress(mac).Success? && |old(page.entries)| < 30 && !HasName(old(page.entries), name) &&
             MacTaken(old(page.entries), mac)) ==>
      r == Failure("There is already an entry for " + Lower(mac))
    ensures r.Failure? ==> page.entries == old(page.entries)
    ensures r.Success? ==> (ValidateMacAddress(mac).Success? &&
      page.entries == old(page.entries) + [MacEntry(name, Lower(mac), enable, false)] &&
      r.value == FormData(page.entries, page.magicName))
  {
    var checked := ValidateMacAddress(mac);
    if checked.Failure? {
      return Failure(checked.error);
    }
    assert Lower(Lower(mac)) == Lower(mac) by {
      LowerIdempotent(mac);
    }
    assert MacTaken(page.entries, checked.value) <==> MacTaken(page.entries, mac);
    var added := page.AddEntry(name, checked.value, enable);
    if added.Fail? {
      return Failure(added.error);
    }
    var data := page.Save();
    return Success(data);
  }

  /** Lower-casing twice is lower-casing once. */
  lemma LowerIdempotent(s: string)
    ensures Lower(Lower(s)) == Lower(s)
  {
    assert forall i :: 0 <= i < |s| ==> LowerChar(LowerChar(s[i])) == LowerChar(s[i]);
  }
}
