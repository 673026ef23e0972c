# toolbox core, modelled in Dafny

This project models the self-contained logic of the `nbeney/toolbox` scripts and proves properties about it.

**The on-call rota engine (`python/experiments/support.py`).**
- Modules: `Calendar`, `DateText`, `Rota`, `RotaLedger`, `RotaStore`.
- The source is a pyDatalog rule program. Each of its rules is written here as an explicit function over a snapshot of the three fact relations:
  - back from holidays, at home and status;
  - the cumulative counts and the score;
  - the last and next on-call dates and the next on-call person.
- `FactStore` is a class holding the three relations. It has the seeding (`reinit_pdl_facts`), the ledger reader (`read_facts_from_file`), `assign_next`, and the 50-round loop of `assign`.
- The ledger writer (`write_facts_to_file`) is a function from the facts to the lines it prints.
- Dates are day numbers counted from 0001-01-01. `DateText` holds the `YYYYMMDD` form that the source compares as strings, and proves that string order is date order.

**The Virgin Super Hub MAC filter (`python/superhub/requests/pages.py`, `python/superhubcli.py`).**
- Modules: `MacFilter`, `SuperHubCli`.
- `MacFilteringPage` is a class whose entry table, an ordered dictionary keyed by device name, is a sequence of entries.
- It has `add_entry`, `delete_entry`, `enable_entry`, `disable_entry` and the form data that `save` posts.
- Also modelled:
  - the table parsing (`_parse_entries`, `get_table_from_list`) and the removal of ignored columns;
  - the MAC validator;
  - `fill_context`;
  - the batch `apply_mac`.

**Text tables (`python/utils/table.py`, `python/print-space.py`).**
- Modules: `TextTable`, `SpaceReport`.
- Modelled: the emptiness predicates, `pretty_print` and `print_table` as functions returning their lines, and the `df -P` parsing.

**Git aliases (`git/list-aliases.py`).** Module `GitAliases` has the two loops of the script as methods.

**JIRA command-line helpers.**
- The files are `python/experiments/cbjiracli.py` and `python/experiments/jira-tool/cbjira.py`. Module `JiraCli` covers both.
- `safe_get` and `no_urls` are identical in the two files and are modelled once.
- `to_ascii` (first tool) returns every non-string, `None` included, unchanged and translates four characters, the capital sigma among them.
- `sanitize` (second tool) returns `None` for `None`, fails on any other non-string (its `replace` raises), and translates three characters, keeping the capital sigma. Both are modelled.

**Factorials (`python/experiments/test-tailrec.py`, `python/test-tailrec.py`, `python/experiments/test-doctest.py`).**
- Module: `Factorial`.
- The two tail-recursion files define the same `fact_iter`, `fact_rec` and inner `fact`, so one member models each of them for both files. The rows below cite the copy in `python/experiments/`; the copy in `python/` is at lines 58-62, 71-72 and 84-88.
- The doctest's last example expects `fact(-1)` to be `0`. The code returns `1` (see Findings).

**Shared modules.** `Strings` models the Python `str` operations the tools use: split, join, replace, lower/upper, whitespace split, `sorted` and decimal digits. `Wrappers` has the `Option`, `Result` and `Outcome` types.

**Where the repository's test file and the code differ, the model follows the code:**
- The repository's test file `python/experiments/test_support.py` exercises a `Rota` class over a pipe-delimited file, with an editable person list and round-robin ranks.
- The code of `support.py` instead reads a comma-separated ledger `DATE,ONCALL,ONHOLS,UNAVAILABLE`, has a fixed three-person roster, and chooses people by score.

## Model

| member | source | states |
|---|---|---|
| Calendar.IsoWeekday | python/experiments/support.py:123 | `isoweekday()` lies between 1 (Monday) and 7 (Sunday) |
| Calendar.IsoWeekdayStep | python/experiments/support.py:122-123 | one day later the ISO weekday advances by one, wrapping from Sunday to Monday |
| Calendar.NextWeekday | python/experiments/support.py:120-125 | `next_weekday(d)` is after `d`, is Monday to Friday, and no weekday lies between them (it is the first one) |
| Calendar.PrevWeekday | python/experiments/support.py:128-133 | `prev_weekday(d)` is before `d`, is Monday to Friday, and is the last weekday before `d` |
| Calendar.WeekdayRoundTrip | python/experiments/support.py:120-133 | on a weekday, one business day back then forward (and forward then back) returns the same day |
| Calendar.WeekendRolls | python/experiments/support.py:123-124 | Saturday and Sunday roll forward to Monday and back to Friday, three days apart |
| DateText.DaysInMonth | python/experiments/support.py:121 | every month that `strptime` accepts has 28 to 31 days |
| DateText.FromDay | python/experiments/support.py:125 | the calendar date of a day number is valid and maps back to that day number |
| DateText.FromDayOfToDay | python/experiments/support.py:121-125 | converting a valid date to its day number and back gives the same date |
| DateText.ToDayMonotone | python/experiments/support.py:221 | an earlier calendar date has a smaller day number |
| DateText.CivilLessIsDayOrder | python/experiments/support.py:221 | chronological order of two dates holds exactly when their day numbers are ordered |
| DateText.Format | python/experiments/support.py:125 | `strftime('%Y%m%d')` yields exactly eight digits |
| DateText.Parse | python/experiments/support.py:121 | a date that parses lies in years 1 to 9999 |
| DateText.ParseSome | python/experiments/support.py:121 | text that parses is eight digits naming a valid year, month and day |
| DateText.ParseFormat | python/experiments/support.py:121-125 | formatting a day of years 1-9999 and parsing the text gives the day back |
| DateText.FormatParse | python/experiments/support.py:121-125 | text that parses is exactly the text that formatting its day gives back |
| DateText.CivilTextOrder | python/experiments/support.py:221 | the `YYYYMMDD` texts of two dates compare as strings the way the dates compare in time |
| DateText.FormatOrder | python/experiments/support.py:221 | `X <= Date` on the 8-digit strings is the order of the days they name |
| Rota.DummyDateText | python/experiments/support.py:163 | the dummy seed date is the text `19700101` |
| Rota.OncallDatesAdd | python/experiments/support.py:179-181 | recording an on-call fact adds its date to `oncall_date` unless it is the dummy date, and adds no other date |
| Rota.OncallDatesSeed | python/experiments/support.py:161-163 | the seed's only on-call fact is on the dummy date, so `oncall_date` starts empty |
| Rota.BackFromHolsLooksBack | python/experiments/support.py:183-187 | back from holidays means not on holiday today but on holiday on the previous business day: the Friday before for a Monday, otherwise the day before |
| Rota.AtHomeRules | python/experiments/support.py:189-195 | Alan is at home on Mondays, Bert on Tuesdays and Thursdays, Cloe on Fridays, and nobody else ever |
| Rota.StatusOf | python/experiments/support.py:209-216 | the status is one whose rule applies, and no rule defined later (of higher priority) applies |
| Rota.StatusUnique | python/experiments/support.py:199-216 | any applicable status that no later rule overrides is the status: it has exactly one value |
| Rota.CountMonotone | python/experiments/support.py:218-231 | a count never decreases as the date moves on |
| Rota.CountAdd | python/experiments/support.py:218-226 | a new fact on date `x` adds one to that person's count on and after `x`, and changes nothing else |
| Rota.CountSeed | python/experiments/support.py:161-163 | with only the seed row every person's on-call count is zero |
| Rota.FirstBest | python/experiments/support.py:247-255 | the chosen roster position is eligible, no eligible member has a lower score, earlier eligible ones all score higher, and there is none exactly when nobody is eligible |
| Rota.NextOncallPerson | python/experiments/support.py:247-255 | `next_oncall_person` is an eligible roster member with the lowest score, and is undefined exactly when nobody is eligible |
| Rota.MaxDay | python/experiments/support.py:239-240 | `_max(Date)` is a member of the set and no member is later |
| Rota.LastOncallDate | python/experiments/support.py:237-240 | `last_oncall_date[None]` is the date of some on-call fact and no on-call fact is later |
| Rota.LastOncallDateOf | python/experiments/support.py:239 | a person's last on-call date exists exactly when they have an on-call fact; it is one of their on-call dates and none is later |
| Rota.EmptyLedgerLast | python/experiments/support.py:240-245 | with an empty ledger the last on-call date is the dummy date `19700101`, and the next one is the day after |
| Rota.NextAssignment | python/experiments/support.py:331-348 | `assign_next` targets the first weekday after the last on-call date; on success it names a person, on failure it reports that date |
| Rota.AssignmentChoosesBest | python/experiments/support.py:335-340 | on success the person is an eligible roster member whom nobody eligible beats on score that day; a failure means nobody is eligible that day |
| Rota.AssignmentIsLatest | python/experiments/support.py:335-340 | the new fact is not yet recorded, lies after every on-call date, and becomes the new last on-call date |
| Rota.AssignmentScore | python/experiments/support.py:233-235 | the assignment raises the chosen person's score by one from the new date on and leaves everyone else's unchanged |
| Rota.Rounds | python/experiments/support.py:364-365 | `n` rounds keep every earlier fact, leave the holiday and unavailability relations alone, add one on-call fact per successful round, and add fewer than `n` when a round fails |
| Rota.RoundsAfter | python/experiments/support.py:364-365 | the same as `Rounds`, once the first round's decision is known |
| Rota.RoundsRecorded | python/experiments/support.py:364-365 | the rounds keep the store well formed, and a failed round reports a real date |
| Rota.OneRound | python/experiments/support.py:331-348 | a successful round adds exactly one fact and keeps the store well formed; a failed one adds nothing |
| Rota.RoundsStep | python/experiments/support.py:364-365 | `n` rounds are one `assign_next` followed by `n - 1` rounds, and they stop at the first failure |
| RotaLedger.CellFactsOfJoin | python/experiments/support.py:303-306 | a cell of space-free names joined by single spaces adds one fact per name, and nothing else |
| RotaLedger.ReadRow | python/experiments/support.py:293-306 | a skipped line (not four cells, a comment, the header) changes nothing; a data line fails exactly when its date is bad, with that cell; otherwise the store gains exactly the on-call fact of a non-empty ONCALL cell and one fact per space-separated piece of ONHOLS and UNAVAILABLE, and stays well formed |
| RotaLedger.ReadLinesMeans | python/experiments/support.py:292-306 | a whole text fails exactly when some data line has a bad date, reporting the first; otherwise each relation holds exactly its old facts plus the facts the data lines name |
| RotaLedger.SortedDays | python/experiments/support.py:325 | the on-call dates, each once, in strictly increasing order |
| RotaLedger.Duties | python/experiments/support.py:325 | `sorted(oncall_date(Date) & is_oncall(Date, Person))`: exactly the named on-call facts on real dates, each once, in ascending `(date, person)` order |
| RotaLedger.DutiesUnique | python/experiments/support.py:325 | two ascending `(date, person)` lists with the same pairs are the same list, so the writer's order is fully determined |
| RotaLedger.WriteFacts | python/experiments/support.py:309-328 | the comment block and header, then exactly one row per on-call pair in `Duties` order, each row the date, the person, and the sorted holiday and unavailable persons of that date |
| RotaLedger.SplitLedgerLine | python/experiments/support.py:292-300 | a written ledger line splits on commas back into its four cells |
| RotaLedger.PreambleSkipped | python/experiments/support.py:294-299 | the reader skips every line of the comment block and header the writer prints |
| RotaLedger.ReadLedger | python/experiments/support.py:266-306 | a canonical ledger reads without failure, and the store holds exactly the rows' on-call persons, holiday lists and unavailable lists |
| RotaLedger.DutiesOfLedger | python/experiments/support.py:325 | after reading a canonical ledger the writer's pairs are the rows' `(date, person)` pairs in row order |
| RotaLedger.LedgerRoundTrip | python/experiments/support.py:266-328 | reading a ledger of any number of rows (one per date, dates increasing, lists sorted) and writing the facts back prints the comment block, the header and the same rows |
| RotaStore.AddAll | python/experiments/support.py:303-306 | the loop over a cell's pieces adds one fact per piece and nothing else |
| RotaStore.FactStore.constructor | python/experiments/support.py:161-171 | each relation holds only its dummy row |
| RotaStore.FactStore.ReadFacts | python/experiments/support.py:266-306 | the store afterwards is what `ReadLines` gives on the ledger's lines, or the reading reports the bad date |
| RotaStore.FactStore.AssignNext | python/experiments/support.py:331-348 | on success exactly the decided fact is added; on failure the store is unchanged and the date is reported |
| RotaStore.FactStore.Assign | python/experiments/support.py:364-365 | `n` calls of `assign_next` leave the store as `Rounds` says and keep it well formed |
| RotaStore.FactStore.AssignRounds | python/experiments/support.py:364-365 | the loop of `assign` ends in the state, and with the failure, that `Rounds` describes |
| RotaStore.AssignCommand | python/experiments/support.py:361-369 | the `assign` command succeeds exactly when the ledger reads and all 50 rounds find someone, and then prints what `WriteFacts` gives for the final store |
| Strings.SplitCuts | python/superhub/requests/pages.py:17 | one piece exactly when the separator is absent; otherwise the first piece ends at the leftmost occurrence and the rest is the split of what follows, which fixes the pieces even for the self-overlapping row separator of `get_table_from_list` |
| Strings.SplitJoin | python/experiments/support.py:303 | splitting a single-character-joined list on that character gives the list back |
| Strings.ReplaceCharIsSubst | python/experiments/jira-tool/cbjira.py:22-24 | replacing a single character everywhere is the character-by-character substitution |
| Strings.SplitWhitespaceSqueeze | python/print-space.py:32 | the words joined by single spaces are the input with leading and trailing whitespace dropped and each inner run made one space: no word is lost, cut or merged |
| Strings.SplitWhitespaceJoin | python/print-space.py:32 | splitting non-empty, space-free words joined by single spaces gives the words back |
| Strings.Lower | python/superhub/requests/pages.py:142 | `lower()` keeps the length, leaves no capital, turns each capital into the small letter of the same place and keeps every other character |
| Strings.Upper | python/experiments/jira-tool/cbjira.py:96 | `upper()` keeps the length, leaves no small letter, turns each small letter into the capital of the same place and keeps every other character |
| Strings.SortedSet | python/experiments/support.py:311 | `sorted` of a set: its elements, each once, strictly ascending |
| Strings.Sort | git/list-aliases.py:20 | `sorted` of a list: ascending, and a permutation of the input |
| Strings.FixedDigitsOrder | python/experiments/support.py:221 | fixed-width digit strings compare as their numbers do |
| Strings.ParseFixedDigits | python/experiments/support.py:121-125 | reading back a zero-padded number gives the number |
| Strings.ParseDecimalOfDecimal | python/superhub/requests/pages.py:171 | `int(str(n)) == n` |
| MacFilter.IndexOf | python/superhub/requests/pages.py:140 | the position found holds that name; none is found exactly when no entry has it |
| MacFilter.PutEntry | python/superhub/requests/pages.py:144 | assignment into the ordered dict keeps names distinct: a new name is appended, a known one is replaced in place |
| MacFilter.Parsed | python/superhub/requests/pages.py:184-189 | the parsed table has distinct device names |
| MacFilter.ParsedHasNames | python/superhub/requests/pages.py:184-189 | every row's device name has an entry |
| MacFilter.ParsedKeepsLast | python/superhub/requests/pages.py:186-188 | the last row with a name gives its entry, with the MAC lower-cased and `delete` false |
| MacFilter.ParsedFromLast | python/superhub/requests/pages.py:186-188 | every entry comes from the last row with its name, so a later duplicate overwrites an earlier one |
| MacFilter.ParseEntries | python/superhub/requests/pages.py:184-189 | the loop builds exactly the parsed table |
| MacFilter.Marked | python/superhub/requests/pages.py:147-152 | positions, names, MACs and `enable` flags are kept, and an entry is marked for deletion exactly when it already was or it has the name |
| MacFilter.Switched | python/superhub/requests/pages.py:154-166 | positions, names, MACs and `delete` flags are kept; the named entry ends with `enable` equal to the requested value and every other entry is unchanged |
| MacFilter.FlagsIdempotent | python/superhub/requests/pages.py:147-166 | marking and switching keep names distinct and are idempotent |
| MacFilter.Put | python/superhub/requests/pages.py:171 | `data[k] = v` on a new key appends the pair |
| MacFilter.Lookup | python/superhub/requests/pages.py:169-179 | `data[k]` is missing exactly when no pair has key `k` |
| MacFilter.LookupPut | python/superhub/requests/pages.py:171-176 | after `data[k] = v`, key `k` gives `v` and every other key keeps its value |
| MacFilter.FieldKeyInjective | python/superhub/requests/pages.py:171-176 | two per-entry keys are equal only for the same prefix and the same index |
| MacFilter.DistinctFieldKeys | python/superhub/requests/pages.py:171-176 | the four keys of one entry are distinct |
| MacFilter.FreshKey | python/superhub/requests/pages.py:170-176 | no key of earlier entries is a key of the next entry |
| MacFilter.EntryFieldsLookup | python/superhub/requests/pages.py:171-176 | one entry's fields hold its name and lower-cased MAC; `Enable` is 1 exactly when enabled, and `Delete` is 1 exactly when marked |
| MacFilter.LookupFieldsAt | python/superhub/requests/pages.py:170-176 | a key of entry `i` is found, in the fields of all entries, with the value entry `i` gave it |
| MacFilter.FieldsMeans | python/superhub/requests/pages.py:170-176 | in the saved fields, entry `i` has its name and lower-cased MAC, and `Enable`/`Delete` present exactly when its flags are set |
| MacFilter.SaveStep | python/superhub/requests/pages.py:170-176 | one loop turn of `save` appends exactly that entry's fields |
| MacFilter.FormDataMeans | python/superhub/requests/pages.py:168-179 | the posted form has the apply value 1, the reset value 0, the magic field 0, and each entry's fields as the entry gives them |
| MacFilter.MacFilteringPage.constructor | python/superhub/requests/pages.py:128-135 | the page's entries are the parsed filter list |
| MacFilter.MacFilteringPage.AddEntry | python/superhub/requests/pages.py:137-145 | refused with the source's message on 30 or more entries, a known name, or a MAC already present ignoring case; otherwise exactly one entry is appended, with the MAC lower-cased and `delete` false |
| MacFilter.MacFilteringPage.DeleteEntry | python/superhub/requests/pages.py:147-152 | refused for an unknown name, with the table unchanged; otherwise only that entry is marked for deletion |
| MacFilter.MacFilteringPage.EnableEntry | python/superhub/requests/pages.py:154-159 | refused for an unknown name; otherwise only that entry is enabled |
| MacFilter.MacFilteringPage.DisableEntry | python/superhub/requests/pages.py:161-166 | refused for an unknown name; otherwise only that entry is disabled |
| MacFilter.MacFilteringPage.Save | python/superhub/requests/pages.py:168-179 | the loop builds exactly the form described by `FormDataMeans` |
| MacFilter.ListRows | python/superhub/requests/pages.py:12-18 | empty list text gives no rows; otherwise one row per chunk of the `split` on the row separator, each row the `}-{` split of its chunk, joining back to the chunk, with no cell holding either separator |
| MacFilter.ListRowsRoundTrip | python/superhub/requests/pages.py:17 | joining the cells and rows back gives the list text |
| MacFilter.Pop | python/superhub/requests/pages.py:54 | `pop(i)` removes exactly element `i`: the elements before it stay in place and the ones after it move down by one |
| MacFilter.PopKeep | python/superhub/requests/pages.py:53-56 | popping a position below all positions already removed removes exactly that original position |
| MacFilter.KeepNone | python/superhub/requests/pages.py:53-56 | removing no position inside the row keeps it |
| MacFilter.PopEach | python/superhub/requests/pages.py:55-56 | the inner `for row in rows: row.pop(idx)` loop: every row, and only it, loses exactly its element `idx`; the number of rows is kept |
| MacFilter.RemoveColumns | python/superhub/requests/pages.py:49-56 | a body of one empty cell becomes no rows; descending pops remove exactly the ignored original positions from the headers and from every row |
| SuperHubCli.ValidateMacAddressAsWritten | python/superhubcli.py:13-18 | as written: on acceptance returns the lower-cased value, otherwise fails with the format message |
| SuperHubCli.AsWrittenAcceptsDigitsOnly | python/superhubcli.py:14-16 | as written, a value is accepted exactly when it starts with six decimal-digit pairs joined by `:` |
| SuperHubCli.HexLettersRefused | python/superhubcli.py:14-16 | as written, `aa:bb:cc:dd:ee:ff` is refused |
| SuperHubCli.ValidateMacAddress | python/superhubcli.py:13-18 | corrected: on acceptance returns the lower-cased value, otherwise fails with the format message |
| SuperHubCli.ValidateMacAddressMeans | python/superhubcli.py:14-16 | corrected: accepted exactly when the value starts with six hexadecimal pairs (either case) joined by `:` |
| SuperHubCli.HexLettersAccepted | python/superhubcli.py:14-16 | corrected: `aa:bb:cc:dd:ee:ff` is accepted unchanged |
| SuperHubCli.ValidatePrefixOnly | python/superhubcli.py:16 | the match is anchored only at the start: an accepted value stays accepted with anything appended |
| SuperHubCli.Accepted | python/superhubcli.py:14-18 | a MAC of six lower-case hex pairs is accepted and returned unchanged |
| SuperHubCli.ValidateRefusesTestValues | python/test-superhubcli-mac.py:40-42 | `""`, `"abc"` and `"44:44:44:4g:44:44"` are refused |
| SuperHubCli.ValidateAcceptsTestValue | python/test-superhubcli-mac.py:31 | `"11:11:11:11:11:11"` is accepted and returned as it is |
| SuperHubCli.LastForMeans | python/superhubcli.py:37-39 | a key gets nothing exactly when no pair has it, and otherwise gets the value of its last pair |
| SuperHubCli.LastForOther | python/superhubcli.py:37-39 | a pair with another key does not change what a key gets |
| SuperHubCli.Context.constructor | python/superhubcli.py:42-43 | a fresh context has no slot set |
| SuperHubCli.Context.FillContext | python/superhubcli.py:35-39 | each slot ends with the value of the last pair with its key, or keeps its old value |
| SuperHubCli.FillContextIgnoresOthers | python/superhubcli.py:38 | a pair whose key is not a slot changes no slot |
| SuperHubCli.SelectedMeans | python/superhubcli.py:132-133 | a name is selected exactly when an entry has it and some pattern matches it |
| SuperHubCli.UnmatchedPatternIgnored | python/superhubcli.py:132-133 | a pattern that matches no entry changes nothing |
| SuperHubCli.Applied | python/superhubcli.py:134-135 | the method is applied to exactly the entries whose names are selected; the others and all positions are unchanged |
| SuperHubCli.AppliedStep | python/superhubcli.py:134-135 | one more call on a name extends the applied set by that name, in any order |
| SuperHubCli.ApplyOp | python/superhubcli.py:135 | calling the page method on a present name cannot fail, and changes only that entry |
| SuperHubCli.ApplyToNames | python/superhubcli.py:134-135 | the loop applies the method once to every selected name |
| SuperHubCli.ApplyMac | python/superhubcli.py:129-136 | the method is applied once to each distinct matching name, and `save` posts the resulting form once |
| SuperHubCli.AddMac | python/superhubcli.py:98-105 | an invalid MAC is refused before the page changes; a valid one succeeds exactly when the page has fewer than 30 entries, none with the name and none with the MAC in any case; each refusal carries the message of `add_entry` (the limit, the name, the lower-cased MAC) and leaves the entries as they were; a success appends the lower-cased entry and returns the saved form |
| SuperHubCli.LowerIdempotent | python/superhub/requests/pages.py:144 | lower-casing the already lower-cased MAC again changes nothing |
| TextTable.AnyNonEmptyMeans | python/utils/table.py:16-17 | `has_headers` holds exactly when some header is non-empty |
| TextTable.AnyRowNonEmptyMeans | python/utils/table.py:19-22 | `has_values` holds exactly when some cell of some row is non-empty |
| TextTable.IsEmptyMeans | python/utils/table.py:10-22 | `is_empty` holds exactly when the caption is `None` or `""` and every header and cell is empty |
| TextTable.ColumnWidth | python/print-space.py:51 | the width is at least every cell's length in the column and equals one of them |
| TextTable.PadRight | python/utils/table.py:28 | left-aligned padding: the cell, then spaces up to the width, never cut |
| TextTable.Widths | python/utils/table.py:26 | one width per header, each bounding the header and every row cell of its column |
| TextTable.WidthsAttained | python/utils/table.py:26 | each width is reached by the header or by a row cell of its column |
| TextTable.SepLineLength | python/utils/table.py:27-29 | with `n >= 1` columns the separator is `sum(widths) + 3n + 1` long |
| TextTable.CellLineLength | python/utils/table.py:28 | with `n >= 1` columns every header or row line is `sum(widths) + 3n + 1` long |
| TextTable.SlotPlacement | python/utils/table.py:28 | the padded cell `i` sits at its column's start in the line |
| TextTable.CellPlacement | python/utils/table.py:28 | cell `i` appears whole at its column's start, followed by spaces to the column's end |
| TextTable.SepPlacement | python/utils/table.py:27-29 | the separator has a dash under every position of every column |
| TextTable.PrettyPrintLine | python/utils/table.py:31-38 | below the caption line (printed only when the caption is truthy and asked for), line `k` is line `k - c` of the framed table |
| TextTable.PrettyPrintHeader | python/utils/table.py:26-35 | in the printed table the header line shows every header whole and left-aligned in its column, padded with spaces to the column width |
| TextTable.PrettyPrintRow | python/utils/table.py:26-37 | the printed line of each row shows each of its cells whole and left-aligned in its column |
| TextTable.PrettyPrintRule | python/utils/table.py:27-38 | the separators above and below the header and below the last row have dashes across every column |
| TextTable.FramedLineLength | python/utils/table.py:27-29 | every framed line has the same length |
| TextTable.TableLineLength | python/utils/table.py:26-29 | with the table's own widths, every framed line is `sum(widths) + 3n + 1` long |
| TextTable.PrettyPrintLineLength | python/utils/table.py:26-38 | every printed line below the caption has that common length |
| TextTable.PrettyPrintAligned | python/utils/table.py:26-38 | all lines but the caption have the same length, `sum(widths) + 3n + 1` |
| SpaceReport.PadLeft | python/print-space.py:52 | right alignment: spaces, then the cell, never cut |
| SpaceReport.ColumnWidths | python/print-space.py:50-51 | one width per column of the first row, each the length of the longest cell of its column (bounding every cell and reached by one) |
| SpaceReport.PrintTableLength | python/print-space.py:52-54 | every line is `sum(widths) + 2 * (ncols - 1)` long |
| SpaceReport.RightSlotPlacement | python/print-space.py:52 | the padded cell `c` sits at its column's start, two spaces after the previous column |
| SpaceReport.RightAlignedRow | python/print-space.py:52-54 | a cell is preceded by spaces and ends exactly at its column's end |
| SpaceReport.RightAligned | python/print-space.py:52-54 | in every printed line each cell is right-aligned in its column |
| SpaceReport.StatsOfFields | python/print-space.py:32 | for a line made of space-free fields, the stats are fields 2 to 5 when there are at least five fields, and missing otherwise |
| SpaceReport.EntriesKeys | python/print-space.py:32-33 | the directories are exactly the keys |
| SpaceReport.EntriesValues | python/print-space.py:32-33 | the last occurrence of a directory gets the stats of output line `i + 1` |
| SpaceReport.ParseDf | python/print-space.py:31-33 | the reading fails exactly when some directory's output line is missing or has fewer than five fields; otherwise the keys are the directories and each directory not repeated later gets the stats of its own line |
| GitAliases.StripAlias | git/list-aliases.py:21 | every occurrence of `alias.` is removed: the result is the pieces between occurrences, put together |
| GitAliases.StripAliasAbsent | git/list-aliases.py:21 | a line without `alias.` is kept as it is |
| GitAliases.StripAliasFirst | git/list-aliases.py:21 | the first `alias.` is dropped and the rest is scanned after it, so not only the prefix is removed |
| GitAliases.ParseAliasSplitsAtFirstSpace | git/list-aliases.py:22-24 | the alias is the text before the first space, and the command is exactly the text after it (empty when there is no space) |
| GitAliases.MaxNameLength | git/list-aliases.py:27 | the maximum alias length bounds every alias and is reached by one |
| GitAliases.AliasLineAligned | git/list-aliases.py:27-30 | the leader is at least three dashes, and alias plus leader take the same width on every line, so commands line up |
| GitAliases.ParseAll | git/list-aliases.py:19-25 | one pair per line, in order; no alias holds a space; a stripped line with a space is the alias, one space and the command, and one without a space is the alias with an empty command |
| GitAliases.CollectAliases | git/list-aliases.py:19-25 | the first loop builds exactly those pairs |
| GitAliases.PrintAliases | git/list-aliases.py:27-30 | the second loop prints one aligned line per alias, in order |
| GitAliases.ListAliases | git/list-aliases.py:19-30 | the script prints the aligned lines of the sorted `git config` lines |
| Factorial.FactRec | python/experiments/test-tailrec.py:68-69 | `fact_rec(n)` is at least 1, and at least `n` for `n >= 1` |
| Factorial.FactIter | python/experiments/test-tailrec.py:61-65 | the loop computes `fact_rec(n)` for every integer `n`; it runs zero times for `n <= 0` |
| Factorial.TailFactIsProduct | python/experiments/test-tailrec.py:74-75 | the inner `fact(n, acc)` is `acc * fact_rec(n)` for `n >= 0` |
| Factorial.FactTailrec | python/experiments/test-tailrec.py:72-77 | `fact_tailrec(n)` equals `fact_rec(n)`, and hence `fact_iter(n)`, for `n >= 0` |
| Factorial.DocFact | python/experiments/test-doctest.py:22 | the doctest's `fact` is at least 1 everywhere |
| Factorial.DocFactIsFactRec | python/experiments/test-doctest.py:22 | the doctest's `fact` agrees with `fact_rec` on every integer |
| Factorial.DocFactExamples | python/experiments/test-doctest.py:16-17 | the first six values are `1, 1, 2, 6, 24, 120`, and `fact(5) == 120` |
| Factorial.DocFactNegative | python/experiments/test-doctest.py:18-22 | as written: for negative `n` the code gives 1, not the 0 the docstring expects |
| Factorial.DocFactIntended | python/experiments/test-doctest.py:12-22 | corrected: 0 for a negative argument, the factorial otherwise |
| Factorial.DocFactIntendedPassesDoctest | python/experiments/test-doctest.py:6-19 | corrected: every docstring example holds, `fact(-1) == 0` included |
| JiraCli.Get | python/experiments/cbjiracli.py:42 | `d.get(k)` is `None` for a missing key, and otherwise a value stored under `k` |
| JiraCli.ReversedInvolution | python/experiments/cbjiracli.py:39-42 | reversing twice gives the keys back, and the reversed list ends with the first key, so `pop()` visits the path in order |
| JiraCli.SafeGet | python/experiments/cbjiracli.py:38-43 | the stack loop is the walk along the dotted path |
| JiraCli.WalkConcat | python/experiments/cbjiracli.py:41-42 | walking a path in two halves is walking it whole |
| JiraCli.WalkFalse | python/experiments/cbjiracli.py:41 | a falsy value answers any path with itself |
| JiraCli.WalkStopsOnFalse | python/experiments/cbjiracli.py:41 | once the value is falsy, the keys left in the path are ignored |
| JiraCli.WalkMissingKey | python/experiments/cbjiracli.py:42 | a missing key gives `None`, whatever follows it |
| JiraCli.WalkOneKey | python/experiments/cbjiracli.py:42 | a one-key path on a non-empty dict is `d.get(k)` |
| JiraCli.UrlsAreStrings | python/experiments/cbjiracli.py:49 | only strings starting with `http` look like URLs |
| JiraCli.KeptEntries | python/experiments/cbjiracli.py:49 | the kept entries are exactly those whose value does not look like a URL |
| JiraCli.NoUrlsEntries | python/experiments/cbjiracli.py:47-51 | the cleaned dict's entries are the kept entries, each value cleaned |
| JiraCli.NoUrlsKeeps | python/experiments/cbjiracli.py:49 | a key survives exactly when one of its values does not look like a URL |
| JiraCli.NoUrlsUrlFree | python/experiments/cbjiracli.py:47-51 | after `no_urls` no dict, at any depth, holds a URL-looking value |
| JiraCli.NoUrlsKeepsUrlFree | python/experiments/cbjiracli.py:47-51 | a value with nothing to remove is returned unchanged, non-dicts included |
| JiraCli.NoUrlsIdempotent | python/experiments/cbjiracli.py:47-51 | cleaning twice is cleaning once |
| JiraCli.AsciiStepsMeans | python/experiments/cbjiracli.py:31-34 | the four `replace` calls in a row are the character-wise translation |
| JiraCli.ToAscii | python/experiments/cbjiracli.py:26-35 | non-strings, `None` included, are returned unchanged; a string is translated |
| JiraCli.AsciifiedClean | python/experiments/cbjiracli.py:31-35 | none of the four characters is left |
| JiraCli.AsciifiedKeeps | python/experiments/cbjiracli.py:31-35 | a text without the four characters is unchanged |
| JiraCli.SanitizeStepsMeans | python/experiments/jira-tool/cbjira.py:22-24 | the three `replace` calls in a row are the character-wise translation |
| JiraCli.Sanitize | python/experiments/jira-tool/cbjira.py:20-25 | `None` stays `None`; a string is translated; any other value fails, as `replace` would |
| JiraCli.SanitizedClean | python/experiments/jira-tool/cbjira.py:22-25 | none of the three characters is left, and a capital sigma stays exactly when there was one |
| JiraCli.SanitizedKeeps | python/experiments/jira-tool/cbjira.py:22-25 | a text without the three characters is unchanged |
| JiraCli.SanitizedIsAsciified | python/experiments/jira-tool/cbjira.py:20-25 | on text without a capital sigma, `sanitize` and `to_ascii` agree |
| JiraCli.SortByKey | python/experiments/cbjiracli.py:339 | sorted by key, and a permutation of the projects |
| JiraCli.Selected | python/experiments/cbjiracli.py:340 | exactly the projects that pass the filter, none more often than listed, still in key order when the input was; all of them when there is no filter |
| JiraCli.SelectedCounts | python/experiments/cbjiracli.py:340 | every copy of a matching project is kept and every other project is dropped |
| JiraCli.SearchProjectsMeans | python/experiments/cbjiracli.py:339-340 | the listing is sorted by key, holds exactly the matching projects, each as often as listed, and every project when there is no filter |
| JiraCli.LastVersionsMeans | python/experiments/cbjiracli.py:431-436 | `--count 0` lists every version; a positive count lists the last `count` (all when there are fewer) |
| JiraCli.DefaultUser | python/experiments/jira-tool/cbjira.py:12-17 | `nbeney` becomes `beneyn`, every other name is returned unchanged, and the result is never `nbeney` |
| JiraCli.DefaultUserIdempotent | python/experiments/jira-tool/cbjira.py:12-17 | applying the mapping twice is applying it once |
| JiraCli.GetTextWords | python/experiments/cbjiracli.py:90-99 | arguments that are not `['-']` and whose first is not a file give the arguments joined by single spaces, which split back into the arguments when none holds a space |

## Left out

- The pyDatalog engine itself: each rule is an explicit function. `display`, `stats`, `schedule`, `dump_facts` and the click command-line layer of `support.py` are not modelled.
- `sys.exit(1)` in `assign_next` becomes a returned failure carrying the date.
- Rota.NextOncallPerson: `_min(Person, order_by=Score)` breaks ties in an engine-defined way. The model takes the earliest roster position among the lowest scores, and its contract promises only "eligible with the lowest score".
- Rota.Score: the 0.2 holiday weight is an exact `real`. Python's float sums may tie or differ differently.
- The ledger text is a parameter of `ReadFacts`. The source reads a CSV literal embedded in the function.
- CSV is a plain comma split without quoting, and lines are a split on `\n`.
- The writer's output is returned as lines rather than printed.
- RotaLedger.ReadRow: a data row whose date is not a valid `YYYYMMDD` date of years 1-9999 makes the read fail. The source stores the text instead. Such a date can fail later, inside `strptime`, when a rule applies a date function to it. A row with an empty ONCALL cell gives only holiday and unavailability facts, which the count rules compare as strings (support.py:221-231). For such a row the source finishes where the model fails.
- DateText.Parse accepts only the canonical eight-digit form. `strptime` also accepts some shorter fields. Years beyond 9999 are outside Python's range and are not modelled.
- Calendar.Dow gives the C-locale abbreviations. Other locales are not modelled.
- The JIRA library, the network, click parsing, CSV row writing and printing in both JIRA tools are not modelled.
- The `JiraFacade` wrapper is not modelled.
- The `description` and lead columns of the project listing are not modelled. They only apply `safe_get` and `to_ascii`, which are modelled.
- `default_user` of `cbjiracli.py` returns the constant `'admin'` and is not modelled. The login name that `getpass` returns in `cbjira.py` is a parameter.
- JiraCli.GetText: the prompt, standard input and file branches are returned as tags naming their source. `os.path.isfile` is a parameter.
- JSON dicts are ordered entry lists, and `no_urls` keeps each kept entry. Python's dict comprehension would merge duplicate keys, which decoded JSON does not have.
- `str(v).startswith('http')` is modelled only for the leading characters of each JSON value's `str()`.
- JiraCli.IsUrl: under Python 2, `str(v)` raises `UnicodeEncodeError` for a unicode value holding a non-ASCII character (cbjiracli.py:49), so `no_urls` fails there. The model reads the value's leading text and does not fail.
- Strings.Lower and Strings.Upper map ASCII letters only. Python's Unicode case mapping is not modelled.
- `fnmatch` glob matching in `apply_mac` is a predicate parameter.
- The router login and logout, `requests.post`, BeautifulSoup table extraction and `magic_name` discovery are not modelled.
- MacFilter.ListRows takes the quoted list text itself. The regular-expression search of `get_table_from_list` is not modelled, so neither is its failure: with no match, `re.search` gives `None` and `.groups()` raises `AttributeError` (pages.py:13).
- The page constructor receives the filter rows and the magic field name directly.
- SuperHubCli.AddMac uses the corrected MAC check (see Findings). The as-written check is modelled and compared separately.
- MacFilter.RemoveColumns requires distinct, descending, in-range column numbers. The source sorts the constant `(0, 4)` and would raise `IndexError` on a short row.
- TextTable.Widths and TextTable.PrettyPrint require every row to have at least as many cells as there are headers. With a shorter row, the width computation of python/utils/table.py:26 raises `IndexError`; the model does not produce that failure.
- MacFilter.FormDataMeans requires that the page's magic field name differs from the per-entry key it looks up. The source does not guard that collision.
- The SSH subprocess and thread pool of `get_space` are not modelled, and neither is the final table assembly in `print-space.py`'s main block.
- The ANSI colour codes and the `git config` subprocess of `list-aliases.py` are not modelled.
- GitAliases.ListAliases requires at least one line. The source's `max()` raises on an empty list.
- Factorial.FactTailrec requires `n >= 0`. The source's inner `fact` never reaches 0 for a negative `n` and does not terminate.
- The `tailrec` decorator (frame inspection and exceptions), the timers and the 10000! digit-count tests are not modelled.
- Factorial.FactRec has no recursion limit. In Python, `fact_rec(10000)` exceeds the interpreter's recursion limit and raises `RuntimeError`, which `test_rec` expects (python/experiments/test-tailrec.py:84-86). The model gives the value.

## Findings

| source | as written | input that shows it | evidently intended | confidence | as-written member | corrected member |
|---|---|---|---|---|---|---|
| python/experiments/test-doctest.py:18-22 | `fact` returns 1 for every `n <= 1` | `fact(-1)` gives 1, while the docstring expects 0 | 0 for a negative argument and the factorial otherwise, so that every docstring example holds | medium (the script may mean to show a failing doctest), not executed | Factorial.DocFactNegative | Factorial.DocFactIntended |
| python/superhubcli.py:14-16 | the value is lower-cased and then matched against the class `[0-9A-F]`, so a MAC containing any hex letter is refused | `aa:bb:cc:dd:ee:ff` (and `AA:BB:CC:DD:EE:FF`) is refused | accept hexadecimal digits in either case and return the lower-cased value | high, not executed | SuperHubCli.HexLettersRefused | SuperHubCli.HexLettersAccepted |
