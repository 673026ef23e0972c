/** Python `str` operations used by the tools: split, join, replace, substring
    tests, ASCII case mapping, code-point ordering, sorting and decimal digits. */
module Strings {
  import opened Wrappers

  // ---------------------------------------------------------------------------
  // Occurrences, split, join, replace
  // ---------------------------------------------------------------------------

  /** `pat` occurs in `s` starting at position `i`. */
  predicate OccursAt(s: string, pat: string, i: nat) {
    i + |pat| <= |s| && s[i..i + |pat|] == pat
  }

  /** Python's `pat in s` for two strings. */
  predicate Contains(s: string, pat: string) {
    exists i: nat :: i <= |s| && OccursAt(s, pat, i)
  }

  /** Python's `s.startswith(pre)`. */
  predicate StartsWith(s: string, pre: string) {
    |pre| <= |s| && s[..|pre|] == pre
  }

  /** The first occurrence of a non-empty `pat` in `s` at or after position `k`. */
  function FindFrom(s: string, pat: string, k: nat): (r: Option<nat>)
    requires |pat| > 0
    ensures r.Some? ==> k <= r.value && OccursAt(s, pat, r.value)
    ensures forall j: nat :: k <= j && (r.None? || j < r.value) ==> !OccursAt(s, pat, j)
    decreases |s| - k
  {
    if k + |pat| > |s| then None
    else if s[k..k + |pat|] == pat then Some(k)
    else FindFrom(s, pat, k + 1)
  }

  /** Python's `sep.join(parts)`. */
  function Join(parts: seq<string>, sep: string): string
  {
    if |parts| == 0 then ""
    else if |parts| == 1 then parts[0]
    else parts[0] + sep + Join(parts[1..], sep)
  }

  /** Python's `s.split(sep)` for a non-empty separator: the pieces between the
      non-overlapping occurrences of `sep`, scanned left to right. Joining the
      pieces again gives back `s`, and no piece contains the separator; where
      the cuts fall is stated by `SplitCuts`. */
  function Split(s: string, sep: string): (parts: seq<string>)
    requires |sep| > 0
    ensures |parts| >= 1
    ensures Join(parts, sep) == s
    ensures forall k :: 0 <= k < |parts| ==> !Contains(parts[k], sep)
    decreases |s|
  {
    match FindFrom(s, sep, 0)
    case None => [s]
    case Some(i) =>
      var rest := Split(s[i + |sep|..], sep);
      var head := s[..i];
      assert !Contains(head, sep) by {
        forall j: nat | j <= |head| ensures !OccursAt(head, sep, j) {
          if OccursAt(head, sep, j) {
            assert s[j..j + |sep|] == head[j..j + |sep|];
            assert OccursAt(s, sep, j);
          }
        }
      }
      assert ([head] + rest)[1..] == rest;
      assert s == head + sep + s[i + |sep|..];
      [head] + rest
  }

  /** Where `Split` cuts: there is one piece exactly when `s` has no
      separator; otherwise the first piece ends at the leftmost occurrence and
      the other pieces are the split of what follows it. Together with the
      join this fixes the pieces even for a self-overlapping separator such
      as `|,|`. */
  lemma SplitCuts(s: string, sep: string)
    requires |sep| > 0
    ensures var parts := Split(s, sep);
      (|parts| == 1 <==> !Contains(s, sep)) &&
      (|parts| > 1 ==> OccursAt(s, sep, |parts[0]|) &&
                       (forall j: nat :: j < |parts[0]| ==> !OccursAt(s, sep, j)) &&
                       parts[1..] == Split(s[|parts[0]| + |sep|..], sep))
  {
    match FindFrom(s, sep, 0)
    case None =>
      assert !Contains(s, sep);
    case Some(i) =>
      assert OccursAt(s, sep, i);
      var rest := Split(s[i + |sep|..], sep);
      assert Split(s, sep) == [s[..i]] + rest;
      assert Split(s, sep)[1..] == rest;
  }

  /** Splitting on a one-character separator undoes joining with it, provided
      no piece contains the separator. */
  lemma {:induction false} SplitJoin(parts: seq<string>, c: char)
    requires |parts| >= 1
    requires forall k :: 0 <= k < |parts| ==> c !in parts[k]
    ensures Split(Join(parts, [c]), [c]) == parts
  {
    var s := Join(parts, [c]);
    if |parts| == 1 {
      forall j: nat | j < |s| ensures !OccursAt(s, [c], j) {
        assert s[j] in parts[0];
      }
    } else {
      var head := parts[0];
      var tail := Join(parts[1..], [c]);
      assert s == head + [c] + tail;
      assert OccursAt(s, [c], |head|);
      forall j: nat | j < |head| ensures !OccursAt(s, [c], j) {
        assert s[j] == head[j] && head[j] in parts[0];
      }
      var r := FindFrom(s, [c], 0);
      assert r == Some(|head|);
      assert s[|head| + 1..] == tail;
      SplitJoin(parts[1..], c);
      assert parts == [head] + parts[1..];
    }
  }

  /** A character absent from every piece and from the separator is absent
      from the joined string. */
  lemma {:induction false} JoinAvoids(parts: seq<string>, sep: string, c: char)
    requires c !in sep && forall k :: 0 <= k < |parts| ==> c !in parts[k]
    ensures c !in Join(parts, sep)
  {
    if |parts| > 1 {
      JoinAvoids(parts[1..], sep, c);
    }
  }

  /** The total length of the pieces. */
  function TotalLength(parts: seq<string>): nat
  {
    if |parts| == 0 then 0 else |parts[0]| + TotalLength(parts[1..])
  }

  /** The joined string is the pieces plus one separator between each pair. */
  lemma {:induction false} JoinLength(parts: seq<string>, sep: string)
    requires |parts| >= 1
    ensures |Join(parts, sep)| == TotalLength(parts) + |sep| * (|parts| - 1)
  {
    if |parts| > 1 {
      JoinLength(parts[1..], sep);
    }
  }

  /** Where piece `i` starts in `Join(parts, sep)`. */
  function PieceStart(parts: seq<string>, sep: string, i: nat): nat
    requires i <= |parts|
  {
    TotalLength(parts[..i]) + |sep| * i
  }

  /** The scan stops at the first occurrence. */
  lemma FindFirst(s: string, pat: string, i: nat)
    requires |pat| > 0 && OccursAt(s, pat, i)
    requires forall j: nat :: j < i ==> !OccursAt(s, pat, j)
    ensures FindFrom(s, pat, 0) == Some(i)
  {
  }

  /** Splitting cuts at the first occurrence and goes on after it. */
  lemma SplitAtFirst(s: string, sep: string, i: nat)
    requires |sep| > 0 && FindFrom(s, sep, 0) == Some(i)
    ensures Split(s, sep) == [s[..i]] + Split(s[i + |sep|..], sep)
  {
  }

  /** Joining with nothing between puts the first piece in front. */
  lemma JoinTightCons(a: string, rest: seq<string>)
    ensures Join([a] + rest, "") == a + Join(rest, "")
  {
    if |rest| > 0 {
      assert ([a] + rest)[1..] == rest;
    }
  }

  /** A part of a piece found at `start` in `line` is found at the same
      offset from `start`. */
  lemma SliceWithin<T>(line: seq<T>, start: nat, piece: seq<T>, a: nat, b: nat)
    requires start + |piece| <= |line| && line[start..start + |piece|] == piece
    requires a <= b <= |piece|
    ensures line[start + a..start + b] == piece[a..b]
    ensures forall k :: start + a <= k < start + b ==> line[k] == piece[k - start]
  {
    forall k | start + a <= k < start + b
      ensures line[k] == piece[k - start]
    {
      assert line[k] == line[start..start + |piece|][k - start];
    }
  }

  /** Piece `i` sits unchanged at `PieceStart(parts, sep, i)` in the joined string. */
  lemma {:induction false} JoinPiece(parts: seq<string>, sep: string, i: nat)
    requires i < |parts|
    ensures PieceStart(parts, sep, i) + |parts[i]| <= |Join(parts, sep)|
    ensures Join(parts, sep)[PieceStart(parts, sep, i)..PieceStart(parts, sep, i) + |parts[i]|] == parts[i]
  {
    if i == 0 {
      assert parts[..0] == [];
    } else {
      var tail := parts[1..];
      JoinPiece(tail, sep, i - 1);
      assert parts[..i][1..] == tail[..i - 1];
      assert TotalLength(parts[..i]) == |parts[0]| + TotalLength(tail[..i - 1]);
      var j := Join(parts, sep);
      assert j == parts[0] + sep + Join(tail, sep);
      var k := PieceStart(tail, sep, i - 1);
      assert PieceStart(parts, sep, i) == |parts[0]| + |sep| + k;
      assert j[|parts[0]| + |sep|..] == Join(tail, sep);
    }
  }

  /** A pattern absent from a joined string is absent from each piece. */
  lemma PieceAvoids(parts: seq<string>, sep: string, i: nat, pat: string)
    requires i < |parts| && !Contains(Join(parts, sep), pat)
    ensures !Contains(parts[i], pat)
  {
    var start := PieceStart(parts, sep, i);
    var j := Join(parts, sep);
    JoinPiece(parts, sep, i);
    forall a: nat | a <= |parts[i]| && OccursAt(parts[i], pat, a) ensures false {
      SliceWithin(j, start, parts[i], a, a + |pat|);
      assert OccursAt(j, pat, start + a);
    }
  }

  /** Python's `s.replace(pat, rep)` for a non-empty `pat`. */
  function ReplaceAll(s: string, pat: string, rep: string): string
    requires |pat| > 0
  {
    Join(Split(s, pat), rep)
  }

  /** Reference definition of replacing one character: every `c` becomes `rep`. */
  function Subst(s: string, c: char, rep: string): (r: string)
  {
    if |s| == 0 then "" else (if s[0] == c then rep else [s[0]]) + Subst(s[1..], c, rep)
  }

  lemma {:induction false} SubstConcat(a: string, b: string, c: char, rep: string)
    ensures Subst(a + b, c, rep) == Subst(a, c, rep) + Subst(b, c, rep)
    decreases |a|
  {
    if |a| > 0 {
      assert (a + b)[0] == a[0];
      assert (a + b)[1..] == a[1..] + b;
      SubstConcat(a[1..], b, c, rep);
    } else {
      assert a + b == b;
    }
  }

  lemma {:induction false} SubstAbsent(s: string, c: char, rep: string)
    requires c !in s
    ensures Subst(s, c, rep) == s
    decreases |s|
  {
    if |s| > 0 {
      assert c !in s[1..];
      SubstAbsent(s[1..], c, rep);
      assert s == [s[0]] + s[1..];
    }
  }

  lemma ContainsChar(s: string, c: char)
    ensures Contains(s, [c]) <==> c in s
  {
    if c in s {
      var i :| 0 <= i < |s| && s[i] == c;
      assert OccursAt(s, [c], i);
    }
    if Contains(s, [c]) {
      var i: nat :| i <= |s| && OccursAt(s, [c], i);
      assert s[i] == s[i..i + 1][0];
    }
  }

  lemma {:induction false} SubstJoin(parts: seq<string>, c: char, rep: string)
    requires forall k :: 0 <= k < |parts| ==> c !in parts[k]
    ensures Subst(Join(parts, [c]), c, rep) == Join(parts, rep)
    decreases |parts|
  {
    if |parts| == 1 {
      SubstAbsent(parts[0], c, rep);
    } else if |parts| > 1 {
      var tail := Join(parts[1..], [c]);
      SubstConcat(parts[0] + [c], tail, c, rep);
      SubstConcat(parts[0], [c], c, rep);
      SubstAbsent(parts[0], c, rep);
      assert Subst([c], c, rep) == rep;
      SubstJoin(parts[1..], c, rep);
    }
  }

  /** Replacing a single character with Python's `replace` is the character-wise
      substitution `Subst`. */
  lemma ReplaceCharIsSubst(s: string, c: char, rep: string)
    ensures ReplaceAll(s, [c], rep) == Subst(s, c, rep)
  {
    var parts := Split(s, [c]);
    forall k | 0 <= k < |parts| ensures c !in parts[k] {
      ContainsChar(parts[k], c);
    }
    SubstJoin(parts, c, rep);
  }

  lemma {:induction false} SubstRemoves(s: string, c: char, rep: string, x: char)
    requires x !in rep && x != c
    ensures x in Subst(s, c, rep) <==> x in s
    decreases |s|
  {
    if |s| > 0 {
      SubstRemoves(s[1..], c, rep, x);
      assert s == [s[0]] + s[1..];
    }
  }

  lemma {:induction false} SubstGone(s: string, c: char, rep: string)
    requires c !in rep
    ensures c !in Subst(s, c, rep)
    decreases |s|
  {
    if |s| > 0 {
      SubstGone(s[1..], c, rep);
    }
  }

  // ---------------------------------------------------------------------------
  // Whitespace splitting (Python 3's `s.split()` with no argument)
  // ---------------------------------------------------------------------------

  /** Python 3's `str.isspace()` for one character: the ASCII controls
      `\t`..`\r` and `\x1c`..`\x1f`, the space, and the Unicode spaces
      U+0085, U+00A0, U+1680, U+2000..U+200A, U+2028, U+2029, U+202F,
      U+205F and U+3000. */
  predicate IsSpace(c: char) {
    var n := c as int;
    (9 <= n <= 13) || (28 <= n <= 32) || n == 0x85 || n == 0xA0 || n == 0x1680 ||
    (0x2000 <= n <= 0x200A) || n == 0x2028 || n == 0x2029 || n == 0x202F ||
    n == 0x205F || n == 0x3000
  }

  /** Length of the run of non-space characters at the start of `s`. */
  function WordLength(s: string): (n: nat)
    ensures n <= |s|
    ensures forall i :: 0 <= i < n ==> !IsSpace(s[i])
    ensures n < |s| ==> IsSpace(s[n])
  {
    if |s| == 0 || IsSpace(s[0]) then 0 else 1 + WordLength(s[1..])
  }

  /** Python's `s.split()`: maximal runs of non-space characters. What the
      words are is stated by `SplitWhitespaceSqueeze` and
      `SplitWhitespaceJoin`. */
  function SplitWhitespace(s: string): (words: seq<string>)
    ensures forall k :: 0 <= k < |words| ==> |words[k]| > 0
    ensures forall k, i :: 0 <= k < |words| && 0 <= i < |words[k]| ==> !IsSpace(words[k][i])
    decreases |s|
  {
    if |s| == 0 then []
    else if IsSpace(s[0]) then SplitWhitespace(s[1..])
    else
      var n := WordLength(s);
      [s[..n]] + SplitWhitespace(s[n..])
  }

  /** `s` read character by character with its leading and trailing
      whitespace dropped and each inner run of whitespace made one space. */
  function Squeeze(s: string): string
    decreases |s|
  {
    if |s| == 0 then ""
    else if IsSpace(s[0]) then Squeeze(s[1..])
    else
      var rest := Squeeze(s[1..]);
      [s[0]] + (if |s| > 1 && IsSpace(s[1]) && rest != "" then " " else "") + rest
  }

  /** Squeezing a text that starts with a word keeps the word whole. */
  lemma {:induction false} SqueezeWord(s: string)
    requires |s| > 0 && !IsSpace(s[0])
    ensures WordSqueezed(s)
    decreases |s|
  {
    if WordLength(s) == 1 {
      SqueezeAlone(s);
    } else {
      SqueezeWord(s[1..]);
      SqueezeJoined(s);
    }
  }

  /** `Squeeze(s)` is the first word of `s`, a space when more follows, then
      the squeezed rest. */
  predicate WordSqueezed(s: string)
    requires |s| > 0
  {
    var n := WordLength(s);
    Squeeze(s) == s[..n] + (if Squeeze(s[n..]) != "" then " " else "") + Squeeze(s[n..])
  }

  /** A one-letter word: a space follows it unless nothing is left. */
  lemma SqueezeAlone(s: string)
    requires |s| > 0 && !IsSpace(s[0]) && WordLength(s) == 1
    ensures WordSqueezed(s)
  {
    assert s[..1] == [s[0]] && s[1..] == s[1..];
    if |s| == 1 {
      assert Squeeze(s[1..]) == "";
    } else {
      assert IsSpace(s[1]);
    }
  }

  /** Two letters in a row stay together. */
  lemma SqueezeJoined(s: string)
    requires |s| > 1 && !IsSpace(s[0]) && WordLength(s) > 1
    requires WordSqueezed(s[1..])
    ensures WordSqueezed(s)
  {
    var n := WordLength(s);
    WordStep(s);
    var w := s[1..n];
    var t := Squeeze(s[n..]);
    var sp := if t != "" then " " else "";
    SliceShift(s, n);
    assert Squeeze(s[1..]) == w + sp + t;
    ConsConcat(s[0], w, sp, t);
  }

  /** A word of two letters or more continues after its first letter. */
  lemma WordStep(s: string)
    requires |s| > 1 && !IsSpace(s[0]) && WordLength(s) > 1
    ensures WordLength(s[1..]) == WordLength(s) - 1 && !IsSpace(s[1])
    ensures Squeeze(s) == [s[0]] + Squeeze(s[1..])
  {
  }

  lemma SliceShift(s: string, n: nat)
    requires 1 <= n <= |s|
    ensures s[1..][..n - 1] == s[1..n] && s[1..][n - 1..] == s[n..] && s[..n] == [s[0]] + s[1..n]
  {
  }

  lemma ConsConcat(c: char, w: string, sp: string, t: string)
    ensures [c] + (w + sp + t) == ([c] + w) + sp + t
  {
  }

  /** A join of words with single spaces is empty only for no words. */
  lemma JoinWordsEmpty(words: seq<string>)
    requires forall k :: 0 <= k < |words| ==> |words[k]| > 0
    ensures Join(words, " ") == "" <==> words == []
  {
    if |words| > 1 {
      assert |Join(words, " ")| >= |words[0]|;
    }
  }

  /** The words of `s.split()`, joined by single spaces, are `s` with its
      whitespace squeezed: no word is lost, cut or merged. */
  lemma {:induction false} SplitWhitespaceSqueeze(s: string)
    ensures Join(SplitWhitespace(s), " ") == Squeeze(s)
    decreases |s|
  {
    if |s| > 0 {
      if IsSpace(s[0]) {
        SplitWhitespaceSqueeze(s[1..]);
      } else {
        var n := WordLength(s);
        var rest := SplitWhitespace(s[n..]);
        SplitWhitespaceSqueeze(s[n..]);
        SqueezeWord(s);
        JoinWordsEmpty(rest);
        assert SplitWhitespace(s) == [s[..n]] + rest;
        assert ([s[..n]] + rest)[1..] == rest;
      }
    }
  }

  /** A word, then nothing or whitespace: the word is the first run. */
  lemma {:induction false} WordLengthOf(w: string, t: string)
    requires forall i :: 0 <= i < |w| ==> !IsSpace(w[i])
    requires |t| == 0 || IsSpace(t[0])
    ensures WordLength(w + t) == |w|
    decreases |w|
  {
    if |w| > 0 {
      WordLengthOf(w[1..], t);
      assert (w + t)[1..] == w[1..] + t;
    }
  }

  /** Splitting words joined by single spaces gives the words back. */
  lemma {:induction false} SplitWhitespaceJoin(words: seq<string>)
    requires forall k :: 0 <= k < |words| ==> |words[k]| > 0
    requires forall k, i :: 0 <= k < |words| && 0 <= i < |words[k]| ==> !IsSpace(words[k][i])
    ensures SplitWhitespace(Join(words, " ")) == words
    decreases |words|
  {
    if |words| == 1 {
      SplitFirstWord(words[0], "");
      assert words[0] + "" == words[0];
    } else if |words| > 1 {
      SplitJoinStep(words);
      SplitWhitespaceJoin(words[1..]);
      assert words == [words[0]] + words[1..];
    }
  }

  /** The first of several joined words splits off whole. */
  lemma SplitJoinStep(words: seq<string>)
    requires |words| > 1 && |words[0]| > 0
    requires forall i :: 0 <= i < |words[0]| ==> !IsSpace(words[0][i])
    ensures SplitWhitespace(Join(words, " ")) == [words[0]] + SplitWhitespace(Join(words[1..], " "))
  {
    var w := words[0];
    var tail := Join(words[1..], " ");
    assert Join(words, " ") == w + (" " + tail);
    SplitFirstWord(w, " " + tail);
    SplitLeadingSpace(tail);
  }

  /** A word followed by nothing or by whitespace is the first word. */
  lemma SplitFirstWord(w: string, rest: string)
    requires |w| > 0 && forall i :: 0 <= i < |w| ==> !IsSpace(w[i])
    requires |rest| == 0 || IsSpace(rest[0])
    ensures SplitWhitespace(w + rest) == [w] + SplitWhitespace(rest)
  {
    WordLengthOf(w, rest);
    var s := w + rest;
    assert s[..|w|] == w && s[|w|..] == rest;
  }

  /** A leading space is skipped. */
  lemma SplitLeadingSpace(tail: string)
    ensures SplitWhitespace(" " + tail) == SplitWhitespace(tail)
  {
    assert (" " + tail)[1..] == tail;
  }

  // ---------------------------------------------------------------------------
  // ASCII case mapping (Python's lower()/upper() restricted to ASCII letters)
  // ---------------------------------------------------------------------------

  function LowerChar(c: char): char {
    if 'A' <= c <= 'Z' then (c as int + 32) as char else c
  }

  function UpperChar(c: char): char {
    if 'a' <= c <= 'z' then (c as int - 32) as char else c
  }

  /** `s.lower()` on ASCII letters: no capital is left, a capital becomes the
      small letter of the same place in the alphabet, and every other
      character is kept. */
  function Lower(s: string): (r: string)
    ensures |r| == |s|
    ensures forall i :: 0 <= i < |r| ==> !('A' <= r[i] <= 'Z')
    ensures forall i :: 0 <= i < |s| && 'A' <= s[i] <= 'Z' ==> r[i] as int - 'a' as int == s[i] as int - 'A' as int
    ensures forall i :: 0 <= i < |s| && !('A' <= s[i] <= 'Z') ==> r[i] == s[i]
  {
    seq(|s|, i requires 0 <= i < |s| => LowerChar(s[i]))
  }

  /** `s.upper()` on ASCII letters: no small letter is left, a small letter
      becomes the capital of the same place in the alphabet, and every other
      character is kept. */
  function Upper(s: string): (r: string)
    ensures |r| == |s|
    ensures forall i :: 0 <= i < |r| ==> !('a' <= r[i] <= 'z')
    ensures forall i :: 0 <= i < |s| && 'a' <= s[i] <= 'z' ==> r[i] as int - 'A' as int == s[i] as int - 'a' as int
    ensures forall i :: 0 <= i < |s| && !('a' <= s[i] <= 'z') ==> r[i] == s[i]
  {
    seq(|s|, i requires 0 <= i < |s| => UpperChar(s[i]))
  }

  // ---------------------------------------------------------------------------
  // Code-point order (Python's `<` on str) and sorting
  // ---------------------------------------------------------------------------

  /** Python's `a < b` on strings: lexicographic by code point, a proper prefix first. */
  predicate Less(a: string, b: string)
    decreases |a|
  {
    |b| > 0 && (|a| == 0 || a[0] < b[0] || (a[0] == b[0] && Less(a[1..], b[1..])))
  }

  predicate LessEq(a: string, b: string) {
    a == b || Less(a, b)
  }

  lemma {:induction false} LessIrreflexive(a: string)
    ensures !Less(a, a)
    decreases |a|
  {
    if |a| > 0 {
      LessIrreflexive(a[1..]);
    }
  }

  lemma {:induction false} LessTransitive(a: string, b: string, c: string)
    requires Less(a, b) && Less(b, c)
    ensures Less(a, c)
    decreases |a|
  {
    if |a| > 0 && a[0] == b[0] && b[0] == c[0] {
      LessTransitive(a[1..], b[1..], c[1..]);
    }
  }

  lemma {:induction false} LessTotal(a: string, b: string)
    ensures a == b || Less(a, b) || Less(b, a)
    decreases |a|
  {
    if |a| > 0 && |b| > 0 && a[0] == b[0] {
      LessTotal(a[1..], b[1..]);
      if a[1..] == b[1..] {
        assert a == [a[0]] + a[1..] && b == [b[0]] + b[1..];
      }
    }
  }

  lemma LessAsymmetric(a: string, b: string)
    requires Less(a, b)
    ensures !Less(b, a) && a != b
  {
    LessIrreflexive(a);
    if Less(b, a) {
      LessTransitive(a, b, a);
    }
  }

  lemma LessEqAntisymmetric()
    ensures forall a, b :: LessEq(a, b) && LessEq(b, a) ==> a == b
  {
    forall a, b | LessEq(a, b) && LessEq(b, a) ensures a == b {
      if a != b {
        LessAsymmetric(a, b);
      }
    }
  }

  /** Comparing two concatenations whose first parts have equal length. */
  lemma {:induction false} LessConcat(a1: string, a2: string, b1: string, b2: string)
    requires |a1| == |b1|
    ensures Less(a1 + a2, b1 + b2) <==> Less(a1, b1) || (a1 == b1 && Less(a2, b2))
    decreases |a1|
  {
    if |a1| == 0 {
      assert a1 + a2 == a2 && b1 + b2 == b2;
    } else {
      assert (a1 + a2)[0] == a1[0] && (b1 + b2)[0] == b1[0];
      assert (a1 + a2)[1..] == a1[1..] + a2;
      assert (b1 + b2)[1..] == b1[1..] + b2;
      LessConcat(a1[1..], a2, b1[1..], b2);
      if a1[0] == b1[0] && a1[1..] == b1[1..] {
        assert a1 == [a1[0]] + a1[1..] && b1 == [b1[0]] + b1[1..];
      }
    }
  }

  lemma {:induction false} MinExists(s: set<string>)
    requires s != {}
    ensures exists m :: m in s && forall x :: x in s ==> LessEq(m, x)
    decreases |s|
  {
    var y :| y in s;
    if s != {y} {
      var others := s - {y};
      MinExists(others);
      var m :| m in others && forall x :: x in others ==> LessEq(m, x);
      LessTotal(y, m);
      if LessEq(y, m) {
        forall x | x in s ensures LessEq(y, x) {
          if x != y {
            assert x in others;
            LessEqTransitive(y, m, x);
          }
        }
        assert y in s;
      } else {
        forall x | x in s ensures LessEq(m, x) {
          if x != y {
            assert x in others;
          }
        }
        assert m in s;
      }
    } else {
      assert forall x :: x in s ==> x == y;
      assert y in s;
    }
  }

  predicate StrictlyAscending(r: seq<string>) {
    forall i, j :: 0 <= i < j < |r| ==> Less(r[i], r[j])
  }

  predicate Ascending(r: seq<string>) {
    forall i, j :: 0 <= i < j < |r| ==> LessEq(r[i], r[j])
  }

  /** Python's `sorted(s)` for a set of strings: its elements, each once, ascending. */
  function SortedSet(s: set<string>): (r: seq<string>)
    ensures StrictlyAscending(r)
    ensures forall x :: x in r <==> x in s
    ensures |r| == |s|
    decreases |s|
  {
    if s == {} then []
    else
      MinExists(s);
      LessEqAntisymmetric();
      var m :| m in s && forall x :: x in s ==> LessEq(m, x);
      var rest := SortedSet(s - {m});
      MinBeforeRest(s, m, rest);
      [m] + rest
  }

  lemma MinBeforeRest(s: set<string>, m: string, rest: seq<string>)
    requires m in s && forall x :: x in s ==> LessEq(m, x)
    requires StrictlyAscending(rest) && forall x :: x in rest <==> x in s - {m}
    ensures StrictlyAscending([m] + rest)
  {
    forall i, j | 0 <= i < j < |[m] + rest| ensures Less(([m] + rest)[i], ([m] + rest)[j]) {
      if i == 0 {
        assert rest[j - 1] in s - {m};
      } else {
        assert ([m] + rest)[i] == rest[i - 1] && ([m] + rest)[j] == rest[j - 1];
      }
    }
  }

  /** Two strictly ascending sequences with the same elements are equal. */
  lemma {:induction false} AscendingUnique(a: seq<string>, b: seq<string>)
    requires StrictlyAscending(a) && StrictlyAscending(b)
    requires forall x :: x in a <==> x in b
    ensures a == b
    decreases |a|
  {
    if |a| > 0 {
      assert a[0] in b;
    }
    if |b| > 0 {
      assert b[0] in a;
    }
    if |a| > 0 {
      var i :| 0 <= i < |b| && b[i] == a[0];
      var j :| 0 <= j < |a| && a[j] == b[0];
      if i > 0 && j > 0 {
        assert Less(b[0], b[i]) && Less(a[0], a[j]);
        LessAsymmetric(a[0], b[0]);
      } else if i > 0 {
        assert Less(b[0], b[i]);
        LessIrreflexive(b[0]);
      } else if j > 0 {
        assert Less(a[0], a[j]);
        LessIrreflexive(a[0]);
      }
      assert a[0] == b[0];
      forall x ensures x in a[1..] <==> x in b[1..] {
        if x in a[1..] {
          var k :| 1 <= k < |a| && a[k] == x;
          LessAsymmetric(a[0], a[k]);
          assert x in b;
        }
        if x in b[1..] {
          var k :| 1 <= k < |b| && b[k] == x;
          LessAsymmetric(b[0], b[k]);
          assert x in a;
        }
      }
      AscendingUnique(a[1..], b[1..]);
      assert a == [a[0]] + a[1..] && b == [b[0]] + b[1..];
    }
  }

  /** A strictly ascending sequence is the sorted form of its own elements. */
  lemma SortedSetOfAscending(r: seq<string>)
    requires StrictlyAscending(r)
    ensures SortedSet(set x | x in r) == r
  {
    AscendingUnique(SortedSet(set x | x in r), r);
  }

  function InsertSorted(x: string, r: seq<string>): (t: seq<string>)
    requires Ascending(r)
    ensures Ascending(t)
    ensures multiset(t) == multiset(r) + multiset{x}
  {
    if |r| == 0 then [x]
    else if LessEq(x, r[0]) then
      forall j | 0 <= j < |r| ensures LessEq(x, r[j]) {
        LessEqTransitive(x, r[0], r[j]);
      }
      AscendingCons(x, r);
      [x] + r
    else
      LessTotal(x, r[0]);
      var t' := InsertSorted(x, r[1..]);
      InsertedAbove(r, x, t');
      AscendingCons(r[0], t');
      assert r == [r[0]] + r[1..];
      [r[0]] + t'
  }

  lemma LessEqTransitive(a: string, b: string, c: string)
    requires LessEq(a, b) && LessEq(b, c)
    ensures LessEq(a, c)
  {
    if a != b && b != c {
      LessTransitive(a, b, c);
    }
  }

  /** An ascending sequence stays ascending behind a bound on all of it. */
  lemma AscendingCons(h: string, r: seq<string>)
    requires Ascending(r) && forall j :: 0 <= j < |r| ==> LessEq(h, r[j])
    ensures Ascending([h] + r)
  {
    forall i, j | 0 <= i < j < |[h] + r|
      ensures LessEq(([h] + r)[i], ([h] + r)[j])
    {
      assert ([h] + r)[j] == r[j - 1];
      if i > 0 {
        assert ([h] + r)[i] == r[i - 1];
      }
    }
  }

  /** The head of an ascending sequence bounds the rest with `x` inserted
      when it is below `x`. */
  lemma InsertedAbove(r: seq<string>, x: string, t: seq<string>)
    requires Ascending(r) && |r| > 0 && LessEq(r[0], x)
    requires multiset(t) == multiset(r[1..]) + multiset{x}
    ensures forall j :: 0 <= j < |t| ==> LessEq(r[0], t[j])
  {
    forall j | 0 <= j < |t| ensures LessEq(r[0], t[j]) {
      assert t[j] in multiset(t);
      if t[j] != x {
        assert t[j] in r[1..];
        var k :| 0 <= k < |r[1..]| && r[1..][k] == t[j];
        assert r[k + 1] == t[j];
      }
    }
  }

  /** Python's `sorted(s)` for a list of strings: ascending, same elements with
      the same multiplicities. */
  function Sort(s: seq<string>): (r: seq<string>)
    ensures Ascending(r)
    ensures multiset(r) == multiset(s)
    ensures |r| == |s|
  {
    if |s| == 0 then []
    else
      assert s == [s[0]] + s[1..];
      InsertSorted(s[0], Sort(s[1..]))
  }

  // ---------------------------------------------------------------------------
  // Decimal digits
  // ---------------------------------------------------------------------------

  predicate IsDigit(c: char) {
    '0' <= c <= '9'
  }

  predicate AllDigits(s: string) {
    forall i :: 0 <= i < |s| ==> IsDigit(s[i])
  }

  function DigitChar(d: nat): (c: char)
    requires d < 10
    ensures IsDigit(c)
  {
    ('0' as int + d) as char
  }

  function DigitValue(c: char): (d: nat)
    requires IsDigit(c)
    ensures d < 10 && DigitChar(d) == c
  {
    c as int - '0' as int
  }

  function Pow10(w: nat): (p: nat)
    ensures p >= 1
  {
    if w == 0 then 1 else 10 * Pow10(w - 1)
  }

  /** The integer a string of decimal digits denotes (Python's `int(s)`). */
  function ParseDecimal(s: string): nat
    requires AllDigits(s)
  {
    if |s| == 0 then 0 else ParseDecimal(s[..|s| - 1]) * 10 + DigitValue(s[|s| - 1])
  }

  /** The last `w` decimal digits of `v`, zero-padded on the left. */
  function FixedDigits(v: nat, w: nat): (r: string)
    ensures |r| == w && AllDigits(r)
  {
    if w == 0 then "" else FixedDigits(v / 10, w - 1) + [DigitChar(v % 10)]
  }

  /** Python's `str(n)` for a natural number. */
  function Decimal(n: nat): (r: string)
    ensures |r| >= 1 && AllDigits(r)
  {
    if n < 10 then [DigitChar(n)] else Decimal(n / 10) + [DigitChar(n % 10)]
  }

  lemma {:induction false} ParseDecimalBound(s: string)
    requires AllDigits(s)
    ensures ParseDecimal(s) < Pow10(|s|)
    decreases |s|
  {
    if |s| > 0 {
      ParseDecimalBound(s[..|s| - 1]);
    }
  }

  lemma {:induction false} ParseFixedDigits(v: nat, w: nat)
    requires v < Pow10(w)
    ensures ParseDecimal(FixedDigits(v, w)) == v
    decreases w
  {
    if w > 0 {
      var r := FixedDigits(v, w);
      ParseFixedDigits(v / 10, w - 1);
      assert r[..|r| - 1] == FixedDigits(v / 10, w - 1);
    }
  }

  lemma {:induction false} FixedDigitsOfParse(s: string)
    requires AllDigits(s)
    ensures FixedDigits(ParseDecimal(s), |s|) == s
    decreases |s|
  {
    if |s| > 0 {
      var init := s[..|s| - 1];
      FixedDigitsOfParse(init);
      var v := ParseDecimal(s);
      assert v / 10 == ParseDecimal(init);
      assert v % 10 == DigitValue(s[|s| - 1]);
      assert s == init + [s[|s| - 1]];
    }
  }

  lemma {:induction false} ParseDecimalOfDecimal(n: nat)
    ensures ParseDecimal(Decimal(n)) == n
    decreases n
  {
    if n >= 10 {
      var r := Decimal(n);
      ParseDecimalOfDecimal(n / 10);
      assert r[..|r| - 1] == Decimal(n / 10);
    }
  }

  /** Fixed-width digit strings compare in code-point order as their values do. */
  lemma {:induction false} FixedDigitsOrder(v1: nat, v2: nat, w: nat)
    requires v1 < Pow10(w) && v2 < Pow10(w)
    ensures Less(FixedDigits(v1, w), FixedDigits(v2, w)) <==> v1 < v2
    decreases w
  {
    if w == 0 {
      LessIrreflexive("");
    } else {
      var q1, q2 := v1 / 10, v2 / 10;
      FixedDigitsOrder(q1, q2, w - 1);
      LessConcat(FixedDigits(q1, w - 1), [DigitChar(v1 % 10)], FixedDigits(q2, w - 1), [DigitChar(v2 % 10)]);
      ParseFixedDigits(q1, w - 1);
      ParseFixedDigits(q2, w - 1);
    }
  }
}
