/** The line handling of `git/list-aliases.py`: each `git config` line
    `alias.<name> <command...>` is split into the alias and its command, and
    the aliases are listed with dashed leaders so that every command starts in
    the same column. */
module GitAliases {
  import opened Wrappers
  import opened Strings
  import opened TextTable

  datatype Alias = Alias(name: string, command: string)

  /** `line.replace("alias.", "")`: the pieces between the occurrences of
      `alias.`, wherever they are, put back together with nothing between. */
  function StripAlias(line: string): (r: string)
    ensures r == Join(Split(line, "alias."), "")
    ensures line == Join(Split(line, "alias."), "alias.")
  {
    ReplaceAll(line, "alias.", "")
  }

  /** A line without `alias.` is kept as it is. */
  lemma StripAliasAbsent(line: string)
    requires !Contains(line, "alias.")
    ensures StripAlias(line) == line
  {
    assert FindFrom(line, "alias.", 0).None?;
    assert Split(line, "alias.") == [line];
  }

  /** The first `alias.` is dropped and the scan goes on after it, so the
      occurrences inside the line go as well as a leading one. */
  lemma StripAliasFirst(a: string, b: string)
    requires forall j: nat :: j < |a| ==> !OccursAt(a + "alias." + b, "alias.", j)
    ensures StripAlias(a + "alias." + b) == a + StripAlias(b)
  {
    var s := a + "alias." + b;
    assert OccursAt(s, "alias.", |a|) by {
      assert s[|a|..|a| + 6] == "alias.";
    }
    FindFirst(s, "alias.", |a|);
    SplitAtFirst(s, "alias.", |a|);
    assert s[..|a|] == a && s[|a| + 6..] == b;
    JoinTightCons(a, Split(b, "alias."));
  }

  /** `items = line.split(" ")`: the alias is `items[0]` and the command the
      rest rejoined with single spaces. */
  function ParseAlias(line: string): Alias
  {
    var items := Split(StripAlias(line), " ");
    Alias(items[0], Join(items[1..], " "))
  }

  /** The alias is the text before the first space and the command the text
      after it; a line without a space is all alias, with an empty command. */
  lemma ParseAliasSplitsAtFirstSpace(line: string)
    ensures var s := StripAlias(line);
      var a := ParseAlias(line);
      ' ' !in a.name &&
      (' ' in s ==> s == a.name + " " + a.command) &&
      (' ' !in s ==> a.name == s && a.command == "")
  {
    var s := StripAlias(line);
    var items := Split(s, " ");
    assert !Contains(items[0], " ");
    if ' ' in items[0] {
      var j :| 0 <= j < |items[0]| && items[0][j] == ' ';
      assert OccursAt(items[0], " ", j);
    }
    if |items| == 1 {
      assert s == items[0];
    } else {
      assert s == items[0] + " " + Join(items[1..], " ");
    }
  }

  /** `max(len(_[0]) for _ in aliases)`. */
  function MaxNameLength(aliases: seq<Alias>): (m: nat)
    requires |aliases| >= 1
    ensures forall k :: 0 <= k < |aliases| ==> |aliases[k].name| <= m
    ensures exists k :: 0 <= k < |aliases| && |aliases[k].name| == m
  {
    if |aliases| == 1 then |aliases[0].name|
    else
      var rest := MaxNameLength(aliases[1..]);
      assert forall k :: 1 <= k < |aliases| ==> aliases[k] == aliases[1..][k - 1];
      if |aliases[0].name| >= rest then |aliases[0].name| else rest
  }

  /** The printed line: the alias, a space, `max - len(alias) + 3` dashes, a
      space and the command (the colour codes around the first two are not
      modelled). */
  function AliasLine(a: Alias, width: nat): string
    requires |a.name| <= width
  {
    a.name + " " + Repeat('-', width - |a.name| + 3) + " " + a.command
  }

  /** The leader is at least three dashes, and alias plus leader always take
      `width + 3` characters, so the command starts at column `width + 5`. */
  lemma AliasLineAligned(a: Alias, width: nat)
    requires |a.name| <= width
    ensures var line := AliasLine(a, width);
      var leader := width - |a.name| + 3;
      leader >= 3 && |a.name| + leader == width + 3 &&
      |line| == width + 5 + |a.command| &&
      line[..|a.name|] == a.name &&
      (forall k :: |a.name| + 1 <= k < width + 4 ==> line[k] == '-') &&
      line[|a.name|] == ' ' && line[width + 4] == ' ' &&
      line[width + 5..] == a.command
  {
    var line := AliasLine(a, width);
    var dashes := Repeat('-', width - |a.name| + 3);
    assert line == a.name + " " + dashes + " " + a.command;
    forall k | |a.name| + 1 <= k < width + 4
      ensures line[k] == '-'
    {
      assert line[k] == dashes[k - |a.name| - 1];
    }
  }

  /** The `(alias, command)` pairs of the lines, in order: each alias is the
      text of its stripped line before the first space and its command the
      text after it (empty when there is no space). */
  function ParseAll(lines: seq<string>): (aliases: seq<Alias>)
    ensures |aliases| == |lines|
    ensures forall k :: 0 <= k < |lines| ==> aliases[k] == ParseAlias(lines[k])
    ensures forall k :: 0 <= k < |lines| ==> ' ' !in aliases[k].name
    ensures forall k :: 0 <= k < |lines| && ' ' in StripAlias(lines[k]) ==>
      StripAlias(lines[k]) == aliases[k].name + " " + aliases[k].command
    ensures forall k :: 0 <= k < |lines| && ' ' !in StripAlias(lines[k]) ==>
      aliases[k] == Alias(StripAlias(lines[k]), "")
  {
    var aliases := seq(|lines|, k requires 0 <= k < |lines| => ParseAlias(lines[k]));
    forall k | 0 <= k < |lines| ensures ' ' !in aliases[k].name {
      ParseAliasSplitsAtFirstSpace(lines[k]);
    }
    aliases
  }

  /** The first loop: `aliases.append((alias, command))` for each line. */
  method CollectAliases(lines: seq<string>) returns (aliases: seq<Alias>)
    ensures aliases == ParseAll(lines)
  {
    aliases := [];
    var i := 0;
    while i < |lines|
      invariant 0 <= i <= |lines|
      invariant aliases == ParseAll(lines[..i])
    {
      assert lines[..i + 1] == lines[..i] + [lines[i]];
      aliases := aliases + [ParseAlias(lines[i])];
      i := i + 1;
    }
    assert lines[..i] == lines;
  }

  /** The second loop: one aligned line per alias, the leaders computed from
      the longest alias. */
  method PrintAliases(aliases: seq<Alias>) returns (out: seq<string>)
    requires |aliases| >= 1
    ensures |out| == |aliases|
    ensures forall k :: 0 <= k < |out| ==>
      |aliases[k].name| <= MaxNameLength(aliases) &&
      out[k] == AliasLine(aliases[k], MaxNameLength(aliases))
  {
    var width := MaxNameLength(aliases);
    out := [];
    var j := 0;
    while j < |aliases|
      invariant 0 <= j <= |aliases|
      invariant |out| == j
      invariant forall k :: 0 <= k < j ==> out[k] == AliasLine(aliases[k], width)
    {
      out := out + [AliasLine(aliases[j], width)];
      j := j + 1;
    }
  }

  /** The script: sort the lines, collect the `(alias, command)` pairs in that
      order, then print them. `max()` of no aliases raises, so there is at
      least one line. */
  method ListAliases(lines: seq<string>) returns (out: seq<string>)
    requires |lines| >= 1
    ensures var aliases := ParseAll(Sort(lines));
      |out| == |lines| &&
      forall k :: 0 <= k < |out| ==>
        |aliases[k].name| <= MaxNameLength(aliases) &&
        out[k] == AliasLine(aliases[k], MaxNameLength(aliases))
  {
    var aliases := CollectAliases(Sort(lines));
    out := PrintAliases(aliases);
  }
}
