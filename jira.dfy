/** The pure helpers of the two JIRA command-line tools,
    `python/experiments/cbjiracli.py` and `python/experiments/jira-tool/cbjira.py`:
    the dotted-path lookup in the server's JSON, the removal of URL fields
    before a dump, the replacement of typographic characters, the project
    filter, the "last N versions" slice, the default user name and the text
    argument fallback. The two files carry the same `safe_get` and `no_urls`,
    which are modelled once. */
module JiraCli {
  import opened Wrappers
  import opened Strings

  // ---------------------------------------------------------------------------
  // JSON values and Python truthiness
  // ---------------------------------------------------------------------------

  /** A decoded JSON value as the `jira` library hands it over: `None`, a
      boolean, an integer, a string, a list or a dict. A dict keeps its
      entries in insertion order, one per key. */
  datatype Json =
    | Null
    | Bool(b: bool)
    | Num(n: int)
    | Str(s: string)
    | List(items: seq<Json>)
    | Dict(entries: seq<(string, Json)>)

  /** Python's truth value: `None`, `False`, `0` and empty containers are false. */
  predicate Truthy(v: Json)
  {
    match v
    case Null => false
    case Bool(b) => b
    case Num(n) => n != 0
    case Str(s) => |s| > 0
    case List(items) => |items| > 0
    case Dict(entries) => |entries| > 0
  }

  /** `k` is one of the keys of the entries. */
  predicate HasKey(entries: seq<(string, Json)>, k: string)
  {
    exists i :: 0 <= i < |entries| && entries[i].0 == k
  }

  /** `d.get(k)`: the value under `k`, or `None` when there is none. */
  function Get(entries: seq<(string, Json)>, k: string): (r: Json)
    ensures !HasKey(entries, k) ==> r == Null
    ensures HasKey(entries, k) ==> exists i :: 0 <= i < |entries| && entries[i] == (k, r)
  {
    if |entries| == 0 then Null
    else if entries[0].0 == k then entries[0].1
    else
      var r := Get(entries[1..], k);
      assert HasKey(entries[1..], k) ==> exists i :: 0 <= i < |entries| && entries[i] == (k, r) by {
        if HasKey(entries[1..], k) {
          var i :| 0 <= i < |entries[1..]| && entries[1..][i] == (k, r);
          assert entries[i + 1] == (k, r);
        }
      }
      assert HasKey(entries, k) ==> HasKey(entries[1..], k) by {
        if HasKey(entries, k) {
          var i :| 0 <= i < |entries| && entries[i].0 == k;
          assert entries[1..][i - 1].0 == k;
        }
      }
      r
  }

  // ---------------------------------------------------------------------------
  // safe_get
  // ---------------------------------------------------------------------------

  /** Following `keys` from `v`: the walk stops on a false value or when the
      keys run out; a true value that is not a dict has no `get` and raises,
      which is `None` here. A missing key yields Python's `None`, `Null`. */
  function Walk(v: Json, keys: seq<string>): Option<Json>
    decreases |keys|
  {
    if !Truthy(v) || |keys| == 0 then Some(v)
    else if v.Dict? then Walk(Get(v.entries, keys[0]), keys[1..])
    else None
  }

  /** `list(reversed(s))`. */
  function Reversed(s: seq<string>): (r: seq<string>)
    ensures |r| == |s| && forall i :: 0 <= i < |s| ==> r[i] == s[|s| - 1 - i]
  {
    seq(|s|, i requires 0 <= i < |s| => s[|s| - 1 - i])
  }

  /** Reversing twice gives the keys back, and the last key comes first:
      popping from the end of the reversed list visits the path in order. */
  lemma ReversedInvolution(s: seq<string>)
    ensures Reversed(Reversed(s)) == s
    ensures |s| > 0 ==> Reversed(s)[|s| - 1] == s[0] && Reversed(s)[..|s| - 1] == Reversed(s[1..])
  {
  }

  /** `safe_get(raw, path)`: the keys of the dotted path are pushed on a stack
      in reverse and popped one by one while the current value is true. */
  method SafeGet(raw: Json, path: string) returns (r: Option<Json>)
    ensures r == Walk(raw, Split(path, "."))
  {
    var keys := Split(path, ".");
    var items := Reversed(keys);
    var curr := raw;
    while Truthy(curr) && |items| > 0
      invariant |items| <= |keys|
      invariant items == Reversed(keys[|keys| - |items|..])
      invariant Walk(raw, keys) == Walk(curr, keys[|keys| - |items|..])
    {
      if !curr.Dict? {
        return None;
      }
      var n := |keys| - |items|;
      assert items[|items| - 1] == keys[n];
      curr := Get(curr.entries, items[|items| - 1]);
      items := items[..|items| - 1];
      assert keys[n..][1..] == keys[n + 1..];
    }
    return Some(curr);
  }

  /** Walking a path in two halves is walking it whole: the second half
      starts from where the first stopped, and a false value stays put. */
  lemma {:induction false} WalkConcat(v: Json, p: seq<string>, q: seq<string>)
    ensures Walk(v, p + q) == (match Walk(v, p) case Some(w) => Walk(w, q) case None => None)
    decreases |p|
  {
    if |p| == 0 {
      assert p + q == q;
    } else if Truthy(v) && v.Dict? {
      assert (p + q)[0] == p[0];
      assert (p + q)[1..] == p[1..] + q;
      WalkConcat(Get(v.entries, p[0]), p[1..], q);
    } else if !Truthy(v) {
      WalkFalse(v, q);
    }
  }

  /** A false value answers every path with itself. */
  lemma {:induction false} WalkFalse(v: Json, q: seq<string>)
    requires !Truthy(v)
    ensures Walk(v, q) == Some(v)
  {
  }

  /** Once the walk has reached a false value, keys left in the path do not
      matter: `safe_get` returns that value. */
  lemma WalkStopsOnFalse(v: Json, p: seq<string>, q: seq<string>)
    requires Walk(v, p).Some? && !Truthy(Walk(v, p).value)
    ensures Walk(v, p + q) == Walk(v, p)
  {
    WalkConcat(v, p, q);
    WalkFalse(Walk(v, p).value, q);
  }

  /** A key missing from a non-empty dict gives `None`, whatever follows it. */
  lemma WalkMissingKey(entries: seq<(string, Json)>, k: string, rest: seq<string>)
    requires |entries| > 0 && !HasKey(entries, k)
    ensures Walk(Dict(entries), [k] + rest) == Some(Null)
  {
    assert ([k] + rest)[1..] == rest;
    WalkFalse(Null, rest);
  }

  /** A one-key path on a non-empty dict is `d.get(k)`. */
  lemma WalkOneKey(entries: seq<(string, Json)>, k: string)
    requires |entries| > 0
    ensures Walk(Dict(entries), [k]) == Some(Get(entries, k))
  {
    assert [k][1..] == [];
  }

  // ---------------------------------------------------------------------------
  // no_urls (inside dump)
  // ---------------------------------------------------------------------------

  /** The start of Python's `str(v)`: a string is itself, the other values
      begin with `None`, `True`, `False`, a sign or digit, `[` or `{`. */
  function ReprStart(v: Json): string
  {
    match v
    case Null => "None"
    case Bool(b) => if b then "True" else "False"
    case Num(n) => if n < 0 then "-" + Decimal(-n) else Decimal(n)
    case Str(s) => s
    case List(_) => "["
    case Dict(_) => "{"
  }

  /** `str(v).startswith('http')`. */
  predicate IsUrl(v: Json)
  {
    StartsWith(ReprStart(v), "http")
  }

  /** Only strings can look like a URL: `str()` of any other value starts
      with a character that is not `h`. */
  lemma UrlsAreStrings(v: Json)
    ensures IsUrl(v) <==> v.Str? && StartsWith(v.s, "http")
  {
    var r := ReprStart(v);
    if !v.Str? && |r| >= 4 {
      assert r[..4][0] == r[0];
      if v.Num? {
        var d := Decimal(if v.n < 0 then -v.n else v.n);
        assert IsDigit(d[0]);
      }
      assert r[0] != 'h';
    }
  }

  /** The entries whose value does not look like a URL, in order. */
  function KeptEntries(entries: seq<(string, Json)>): (r: seq<(string, Json)>)
    ensures forall e :: e in r <==> e in entries && !IsUrl(e.1)
    ensures |r| <= |entries|
  {
    if |entries| == 0 then []
    else
      var rest := KeptEntries(entries[1..]);
      assert forall e :: e in entries <==> e == entries[0] || e in entries[1..];
      if IsUrl(entries[0].1) then rest else [entries[0]] + rest
  }

  /** `no_urls(v)`: a dict loses the entries whose value looks like a URL and
      the kept values are cleaned in turn; anything else, lists included, is
      returned as it is. */
  function NoUrls(v: Json): Json
    decreases v
  {
    match v
    case Dict(entries) =>
      var kept := KeptEntries(entries);
      Dict(seq(|kept|, i requires 0 <= i < |kept| => (kept[i].0, NoUrls(kept[i].1))))
    case _ => v
  }

  /** No dict, at any depth reached through dicts, holds a value that looks
      like a URL. */
  predicate UrlFree(v: Json)
    decreases v
  {
    match v
    case Dict(entries) =>
      forall i :: 0 <= i < |entries| ==> !IsUrl(entries[i].1) && UrlFree(entries[i].1)
    case _ => true
  }

  /** The entries of the cleaned dict are the kept entries, each value cleaned. */
  lemma NoUrlsEntries(entries: seq<(string, Json)>)
    ensures var r := NoUrls(Dict(entries)).entries;
      var kept := KeptEntries(entries);
      |r| == |kept| &&
      forall i :: 0 <= i < |r| ==> r[i] == (kept[i].0, NoUrls(kept[i].1))
  {
  }

  /** A key survives exactly when one of its entries does not look like a
      URL, and its value is then the cleaned value. */
  lemma NoUrlsKeeps(entries: seq<(string, Json)>, k: string, x: Json)
    ensures (k, x) in entries && !IsUrl(x) ==> (k, NoUrls(x)) in NoUrls(Dict(entries)).entries
    ensures (exists y :: (k, y) in NoUrls(Dict(entries)).entries) ==>
      exists y :: (k, y) in entries && !IsUrl(y)
  {
    var kept := KeptEntries(entries);
    var r := NoUrls(Dict(entries)).entries;
    if (k, x) in entries && !IsUrl(x) {
      var i :| 0 <= i < |kept| && kept[i] == (k, x);
      assert r[i] == (k, NoUrls(x));
    }
    if y :| (k, y) in r {
      var i :| 0 <= i < |r| && r[i] == (k, y);
      assert kept[i] in entries && !IsUrl(kept[i].1);
    }
  }

  /** After `no_urls` nothing that looks like a URL is left. */
  lemma {:induction false} NoUrlsUrlFree(v: Json)
    ensures UrlFree(NoUrls(v))
    decreases v
  {
    if v.Dict? {
      var kept := KeptEntries(v.entries);
      var r := NoUrls(v).entries;
      forall i | 0 <= i < |r|
        ensures !IsUrl(r[i].1) && UrlFree(r[i].1)
      {
        assert kept[i] in v.entries;
        NoUrlsUrlFree(kept[i].1);
        UrlsAreStrings(kept[i].1);
        UrlsAreStrings(r[i].1);
      }
    }
  }

  /** A value with nothing to remove is returned as it is. */
  lemma {:induction false} NoUrlsKeepsUrlFree(v: Json)
    requires UrlFree(v)
    ensures NoUrls(v) == v
    decreases v
  {
    if v.Dict? {
      var es := v.entries;
      KeptAll(es);
      forall i | 0 <= i < |es|
        ensures NoUrls(es[i].1) == es[i].1
      {
        NoUrlsKeepsUrlFree(es[i].1);
      }
      assert NoUrls(v).entries == es;
    }
  }

  /** No entry looks like a URL: all are kept. */
  lemma {:induction false} KeptAll(entries: seq<(string, Json)>)
    requires forall i :: 0 <= i < |entries| ==> !IsUrl(entries[i].1)
    ensures KeptEntries(entries) == entries
  {
    if |entries| > 0 {
      KeptAll(entries[1..]);
      assert entries == [entries[0]] + entries[1..];
    }
  }

  /** Cleaning twice is cleaning once. */
  lemma NoUrlsIdempotent(v: Json)
    ensures NoUrls(NoUrls(v)) == NoUrls(v)
  {
    NoUrlsUrlFree(v);
    NoUrlsKeepsUrlFree(NoUrls(v));
  }

  // ---------------------------------------------------------------------------
  // to_ascii and sanitize
  // ---------------------------------------------------------------------------

  const RightQuote: char := '\U{2019}'
  const EnDash: char := '\U{2013}'
  const Bullet: char := '\U{2022}'
  const Sigma: char := '\U{03a3}'

  /** What `to_ascii` makes of one character: the right quote becomes `'`,
      the en dash `-`, the bullet `*`, capital sigma `Sum`; any other
      character stays. */
  function AsciiChar(c: char): string
  {
    if c == RightQuote then "'"
    else if c == EnDash then "-"
    else if c == Bullet then "*"
    else if c == Sigma then "Sum"
    else [c]
  }

  /** Reference definition of `to_ascii` on a string: each character
      translated on its own, in place. */
  function Asciified(s: string): string
  {
    if |s| == 0 then "" else AsciiChar(s[0]) + Asciified(s[1..])
  }

  /** The four `replace` calls of `to_ascii`, one after the other. */
  function AsciiSteps(s: string): string
  {
    Subst(Subst(Subst(Subst(s, RightQuote, "'"), EnDash, "-"), Bullet, "*"), Sigma, "Sum")
  }

  lemma AsciiStepsConcat(a: string, b: string)
    ensures AsciiSteps(a + b) == AsciiSteps(a) + AsciiSteps(b)
  {
    var a1, b1 := Subst(a, RightQuote, "'"), Subst(b, RightQuote, "'");
    SubstConcat(a, b, RightQuote, "'");
    var a2, b2 := Subst(a1, EnDash, "-"), Subst(b1, EnDash, "-");
    SubstConcat(a1, b1, EnDash, "-");
    var a3, b3 := Subst(a2, Bullet, "*"), Subst(b2, Bullet, "*");
    SubstConcat(a2, b2, Bullet, "*");
    SubstConcat(a3, b3, Sigma, "Sum");
  }

  lemma SubstOne(x: char, c: char, rep: string)
    ensures Subst([x], c, rep) == if x == c then rep else [x]
  {
    assert [x][1..] == [];
  }

  lemma AsciiStepsChar(c: char)
    ensures AsciiSteps([c]) == AsciiChar(c)
  {
    SubstOne(c, RightQuote, "'");
    var s1 := Subst([c], RightQuote, "'");
    assert s1 == [s1[0]];
    SubstOne(s1[0], EnDash, "-");
    var s2 := Subst(s1, EnDash, "-");
    assert s2 == [s2[0]];
    SubstOne(s2[0], Bullet, "*");
    var s3 := Subst(s2, Bullet, "*");
    assert s3 == [s3[0]];
    SubstOne(s3[0], Sigma, "Sum");
  }

  /** The four replacements in a row are the character-wise translation. */
  lemma {:induction false} AsciiStepsMeans(s: string)
    ensures AsciiSteps(s) == Asciified(s)
    decreases |s|
  {
    if |s| > 0 {
      assert s == [s[0]] + s[1..];
      AsciiStepsConcat([s[0]], s[1..]);
      AsciiStepsChar(s[0]);
      AsciiStepsMeans(s[1..]);
    }
  }

  /** `to_ascii(text)`: anything that is not a string, `None` included, is
      returned as it is; a string has the four characters replaced in turn. */
  method ToAscii(v: Json) returns (r: Json)
    ensures !v.Str? ==> r == v
    ensures v.Str? ==> r == Str(Asciified(v.s))
  {
    if !v.Str? {
      return v;
    }
    var text := v.s;
    ReplaceCharIsSubst(text, RightQuote, "'");
    text := ReplaceAll(text, [RightQuote], "'");
    ReplaceCharIsSubst(text, EnDash, "-");
    text := ReplaceAll(text, [EnDash], "-");
    ReplaceCharIsSubst(text, Bullet, "*");
    text := ReplaceAll(text, [Bullet], "*");
    ReplaceCharIsSubst(text, Sigma, "Sum");
    text := ReplaceAll(text, [Sigma], "Sum");
    AsciiStepsMeans(v.s);
    r := Str(text);
  }

  /** None of the four characters is left. */
  lemma {:induction false} AsciifiedClean(s: string)
    ensures RightQuote !in Asciified(s) && EnDash !in Asciified(s)
    ensures Bullet !in Asciified(s) && Sigma !in Asciified(s)
    decreases |s|
  {
    if |s| > 0 {
      AsciifiedClean(s[1..]);
    }
  }

  /** A text without the four characters is returned unchanged. */
  lemma {:induction false} AsciifiedKeeps(s: string)
    requires RightQuote !in s && EnDash !in s && Bullet !in s && Sigma !in s
    ensures Asciified(s) == s
    decreases |s|
  {
    if |s| > 0 {
      assert s[0] in s && s == [s[0]] + s[1..];
      AsciifiedKeeps(s[1..]);
    }
  }

  /** What `sanitize` makes of one character: as `to_ascii`, but capital
      sigma is kept. */
  function SanitizedChar(c: char): string
  {
    if c == RightQuote then "'"
    else if c == EnDash then "-"
    else if c == Bullet then "*"
    else [c]
  }

  /** Reference definition of `sanitize` on a string. */
  function Sanitized(s: string): string
  {
    if |s| == 0 then "" else SanitizedChar(s[0]) + Sanitized(s[1..])
  }

  /** The three `replace` calls of `sanitize`, one after the other. */
  function SanitizeSteps(s: string): string
  {
    Subst(Subst(Subst(s, RightQuote, "'"), EnDash, "-"), Bullet, "*")
  }

  lemma SanitizeStepsConcat(a: string, b: string)
    ensures SanitizeSteps(a + b) == SanitizeSteps(a) + SanitizeSteps(b)
  {
    var a1, b1 := Subst(a, RightQuote, "'"), Subst(b, RightQuote, "'");
    SubstConcat(a, b, RightQuote, "'");
    var a2, b2 := Subst(a1, EnDash, "-"), Subst(b1, EnDash, "-");
    SubstConcat(a1, b1, EnDash, "-");
    SubstConcat(a2, b2, Bullet, "*");
  }

  lemma SanitizeStepsChar(c: char)
    ensures SanitizeSteps([c]) == SanitizedChar(c)
  {
    SubstOne(c, RightQuote, "'");
    var s1 := Subst([c], RightQuote, "'");
    assert s1 == [s1[0]];
    SubstOne(s1[0], EnDash, "-");
    var s2 := Subst(s1, EnDash, "-");
    assert s2 == [s2[0]];
    SubstOne(s2[0], Bullet, "*");
  }

  /** The three replacements in a row are the character-wise translation. */
  lemma {:induction false} SanitizeStepsMeans(s: string)
    ensures SanitizeSteps(s) == Sanitized(s)
    decreases |s|
  {
    if |s| > 0 {
      assert s == [s[0]] + s[1..];
      SanitizeStepsConcat([s[0]], s[1..]);
      SanitizeStepsChar(s[0]);
      SanitizeStepsMeans(s[1..]);
    }
  }

  /** `sanitize(text)`: `None` stays `None`; a string has the three characters
      replaced in turn; any other value has no `replace` and raises, which is
      `None` here. */
  method Sanitize(v: Json) returns (r: Option<Json>)
    ensures v.Null? ==> r == Some(Null)
    ensures v.Str? ==> r == Some(Str(Sanitized(v.s)))
    ensures r.None? <==> !v.Null? && !v.Str?
  {
    if v.Null? {
      return Some(Null);
    }
    if !v.Str? {
      return None;
    }
    var text := v.s;
    ReplaceCharIsSubst(text, RightQuote, "'");
    text := ReplaceAll(text, [RightQuote], "'");
    ReplaceCharIsSubst(text, EnDash, "-");
    text := ReplaceAll(text, [EnDash], "-");
    ReplaceCharIsSubst(text, Bullet, "*");
    text := ReplaceAll(text, [Bullet], "*");
    SanitizeStepsMeans(v.s);
    r := Some(Str(text));
  }

  /** None of the three characters is left, and capital sigma is there
      exactly when it was before. */
  lemma {:induction false} SanitizedClean(s: string)
    ensures RightQuote !in Sanitized(s) && EnDash !in Sanitized(s) && Bullet !in Sanitized(s)
    ensures Sigma in Sanitized(s) <==> Sigma in s
    decreases |s|
  {
    if |s| > 0 {
      SanitizedClean(s[1..]);
      assert s == [s[0]] + s[1..];
    }
  }

  /** A text without the three characters is returned unchanged. */
  lemma {:induction false} SanitizedKeeps(s: string)
    requires RightQuote !in s && EnDash !in s && Bullet !in s
    ensures Sanitized(s) == s
    decreases |s|
  {
    if |s| > 0 {
      assert s[0] in s && s == [s[0]] + s[1..];
      SanitizedKeeps(s[1..]);
    }
  }

  /** On text without capital sigma the two tools agree. */
  lemma {:induction false} SanitizedIsAsciified(s: string)
    requires Sigma !in s
    ensures Sanitized(s) == Asciified(s)
    decreases |s|
  {
    if |s| > 0 {
      assert s[0] in s;
      SanitizedIsAsciified(s[1..]);
    }
  }

  // ---------------------------------------------------------------------------
  // Project search
  // ---------------------------------------------------------------------------

  /** A project as listed by the server: its key, its name and its raw JSON. */
  datatype Project = Project(key: string, name: string, raw: Json)

  /** The `--filter` test: no filter, or the upper-cased filter inside the
      upper-cased key or name. */
  predicate Matches(filter: Option<string>, p: Project)
  {
    match filter
    case None => true
    case Some(f) => Contains(Upper(p.key), Upper(f)) || Contains(Upper(p.name), Upper(f))
  }

  predicate KeysAscending(ps: seq<Project>)
  {
    forall i, j :: 0 <= i < j < |ps| ==> LessEq(ps[i].key, ps[j].key)
  }

  /** A project whose key is not above any of an ascending list may lead it. */
  lemma ConsAscending(q: Project, r: seq<Project>)
    requires KeysAscending(r)
    requires forall j :: 0 <= j < |r| ==> LessEq(q.key, r[j].key)
    ensures KeysAscending([q] + r)
  {
    var t := [q] + r;
    forall i, j | 0 <= i < j < |t|
      ensures LessEq(t[i].key, t[j].key)
    {
      if i > 0 {
        assert t[i] == r[i - 1] && t[j] == r[j - 1];
      }
    }
  }

  /** Below the head of an ascending list: a key not above the head. */
  lemma BelowHead(p: Project, ps: seq<Project>)
    requires KeysAscending(ps) && |ps| > 0 && LessEq(p.key, ps[0].key)
    ensures forall j :: 0 <= j < |ps| ==> LessEq(p.key, ps[j].key)
  {
    forall j | 0 <= j < |ps| ensures LessEq(p.key, ps[j].key) {
      if p.key != ps[0].key && ps[0].key != ps[j].key {
        LessTransitive(p.key, ps[0].key, ps[j].key);
      }
    }
  }

  /** The head of an ascending list stays below what the insertion into its
      tail produced. */
  lemma HeadBelowInsert(p: Project, ps: seq<Project>, r: seq<Project>)
    requires KeysAscending(ps) && |ps| > 0 && Less(ps[0].key, p.key)
    requires multiset(r) == multiset(ps[1..]) + multiset{p}
    ensures forall j :: 0 <= j < |r| ==> LessEq(ps[0].key, r[j].key)
  {
    forall j | 0 <= j < |r| ensures LessEq(ps[0].key, r[j].key) {
      assert r[j] in multiset(r);
      if r[j] != p {
        assert r[j] in multiset(ps[1..]);
        var k :| 0 <= k < |ps[1..]| && ps[1..][k] == r[j];
        assert ps[k + 1] == r[j];
      }
    }
  }

  /** Inserts `p` before the first project whose key is not smaller. */
  function InsertByKey(p: Project, ps: seq<Project>): (r: seq<Project>)
    requires KeysAscending(ps)
    ensures KeysAscending(r)
    ensures multiset(r) == multiset(ps) + multiset{p}
  {
    if |ps| == 0 then [p]
    else if LessEq(p.key, ps[0].key) then
      BelowHead(p, ps);
      ConsAscending(p, ps);
      [p] + ps
    else
      LessTotal(p.key, ps[0].key);
      var r' := InsertByKey(p, ps[1..]);
      HeadBelowInsert(p, ps, r');
      ConsAscending(ps[0], r');
      assert ps == [ps[0]] + ps[1..];
      [ps[0]] + r'
  }

  /** `sorted(projects, key=attrgetter('key'))`: ascending keys, the same
      projects. */
  function SortByKey(ps: seq<Project>): (r: seq<Project>)
    ensures KeysAscending(r)
    ensures multiset(r) == multiset(ps)
  {
    if |ps| == 0 then []
    else
      assert ps == [ps[0]] + ps[1..];
      InsertByKey(ps[0], SortByKey(ps[1..]))
  }

  /** The projects that pass the filter, in their order. */
  function Selected(ps: seq<Project>, filter: Option<string>): (r: seq<Project>)
    ensures forall p :: p in r <==> p in ps && Matches(filter, p)
    ensures multiset(r) <= multiset(ps)
    ensures KeysAscending(ps) ==> KeysAscending(r)
    ensures filter.None? ==> r == ps
  {
    if |ps| == 0 then []
    else
      var rest := Selected(ps[1..], filter);
      assert ps == [ps[0]] + ps[1..];
      if Matches(filter, ps[0]) then
        assert KeysAscending(ps) ==> forall j :: 0 <= j < |rest| ==> LessEq(ps[0].key, rest[j].key) by {
          if KeysAscending(ps) {
            forall j | 0 <= j < |rest| ensures LessEq(ps[0].key, rest[j].key) {
              assert rest[j] in ps[1..];
            }
          }
        }
        [ps[0]] + rest
      else rest
  }

  /** The filter keeps every copy of a matching project and none of the
      others. */
  lemma {:induction false} SelectedCounts(ps: seq<Project>, filter: Option<string>)
    ensures forall p :: multiset(Selected(ps, filter))[p] == if Matches(filter, p) then multiset(ps)[p] else 0
  {
    if |ps| > 0 {
      SelectedCounts(ps[1..], filter);
      assert ps == [ps[0]] + ps[1..];
    }
  }

  /** The rows `search_projects` writes (in both tools): the projects sorted
      by key, those that do not match the filter skipped. */
  function SearchProjects(ps: seq<Project>, filter: Option<string>): seq<Project>
  {
    Selected(SortByKey(ps), filter)
  }

  /** The listing is sorted by key, holds exactly the matching projects,
      each no more often than the server listed it, and without a filter it
      holds every project. */
  lemma SearchProjectsMeans(ps: seq<Project>, filter: Option<string>)
    ensures var r := SearchProjects(ps, filter);
      KeysAscending(r) &&
      (forall p :: p in r <==> p in ps && Matches(filter, p)) &&
      multiset(r) <= multiset(ps) &&
      (forall p :: multiset(r)[p] == if Matches(filter, p) then multiset(ps)[p] else 0) &&
      (filter.None? ==> multiset(r) == multiset(ps))
  {
    var sorted := SortByKey(ps);
    SelectedCounts(sorted, filter);
    assert forall p :: p in sorted <==> p in multiset(sorted);
    assert forall p :: p in ps <==> p in multiset(ps);
  }

  // ---------------------------------------------------------------------------
  // Version search
  // ---------------------------------------------------------------------------

  /** Python's `s[start:]` for any integer `start`: a negative start counts
      from the end, and both are clamped to the list. */
  function SliceFrom<T>(s: seq<T>, start: int): seq<T>
  {
    if start < 0 then s[(if |s| + start < 0 then 0 else |s| + start)..]
    else s[(if start > |s| then |s| else start)..]
  }

  /** `versions[-count:]`. */
  function LastVersions<T>(vs: seq<T>, count: int): seq<T>
  {
    SliceFrom(vs, -count)
  }

  /** `--count 0` lists every version; a positive count lists the last
      `count` of them (all when there are fewer); a negative count, which the
      option does not refuse, skips the first `-count`. */
  lemma LastVersionsMeans<T>(vs: seq<T>, count: int)
    ensures count == 0 ==> LastVersions(vs, count) == vs
    ensures count > 0 ==> var n := if count < |vs| then count else |vs|;
      |LastVersions(vs, count)| == n && vs == vs[..|vs| - n] + LastVersions(vs, count)
    ensures count < 0 ==> var n := if -count < |vs| then -count else |vs|;
      vs == vs[..n] + LastVersions(vs, count)
  {
  }

  // ---------------------------------------------------------------------------
  // default_user and get_text
  // ---------------------------------------------------------------------------

  /** `default_user()` of `cbjira.py` applied to the login name: `nbeney`
      becomes `beneyn`, any other name is kept. */
  function DefaultUser(login: string): (user: string)
    ensures login == "nbeney" ==> user == "beneyn"
    ensures user != "nbeney"
    ensures user == login <==> login != "nbeney"
  {
    if login == "nbeney" then "beneyn" else login
  }

  /** The mapping is settled after one step. */
  lemma DefaultUserIdempotent(login: string)
    ensures DefaultUser(DefaultUser(login)) == DefaultUser(login)
  {
  }

  /** Where `get_text` takes its text from. */
  datatype TextSource =
    | Prompt(message: string)
    | Stdin
    | FileText(path: string)
    | Words(text: string)

  /** `get_text(args, message)`: a prompt with no arguments, standard input
      for the single argument `-`, the file named by the first argument when
      it is a file, otherwise the arguments joined by single spaces. Whether
      a path is a file is a parameter. */
  function GetText(args: seq<string>, message: string, isFile: string -> bool): TextSource
  {
    if |args| == 0 then Prompt(message)
    else if |args| == 1 && args[0] == "-" then Stdin
    else if isFile(args[0]) then FileText(args[0])
    else Words(Join(args, " "))
  }

  /** In the fallback the text is the words joined by spaces, and when no
      word holds a space, splitting the text on spaces gives the words back. */
  lemma GetTextWords(args: seq<string>, message: string, isFile: string -> bool)
    requires |args| > 0 && args != ["-"] && !isFile(args[0])
    ensures GetText(args, message, isFile) == Words(Join(args, " "))
    ensures (forall k :: 0 <= k < |args| ==> ' ' !in args[k]) ==>
      Split(GetText(args, message, isFile).text, " ") == args
  {
    if |args| == 1 {
      assert args == [args[0]];
    }
    if forall k :: 0 <= k < |args| ==> ' ' !in args[k] {
      SplitJoin(args, ' ');
    }
  }
}
