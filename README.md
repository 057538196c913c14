# RC Toolbox penalty ledger, in Dafny

A model of the penalty ledger of the RC Toolbox (`rcstuff.py`): the fixed table of
incident points, the per-participant lists of recorded `(category, incident)` pairs
held in the window's `selected_penalties` dictionary, the handlers that change them
(`add_name`, the penalty dialog's `add_penalty` / `remove_penalty`, `import_penalties`),
the derived total and disqualification flag (`update_penalty_counts`), and the rows
`output_penalties` writes.

- `results.dfy` (`Results`): Option and Result.
- `catalog.dfy` (`Catalog`): the table `penalties` as a sequence of categories in
  dictionary order, `MAX_PENALTY_POINTS`, the lookups `penalties[offense][incident]` and
  the import's search by incident name, and the proof that the table is well formed
  (distinct incident names, points of at least 1), so the search by name is unambiguous.
- `ledger.dfy` (`PenaltyLedger`): the dictionary as a value, `Ledger(order, entries)`,
  where `order` is the keys' first-insertion order (Python's dictionary iteration order),
  and the handlers' effects as functions with their lemmas.
- `transfer.dfy` (`Transfer`): a CSV file as its rows (`seq<seq<string>>`); `str` and
  `int` on the points column; the rows written by `output_penalties`; the row-by-row
  loading loop of `import_penalties`, with its three ways to stop.
- `roundtrip.dfy` (`RoundTrip`): what a save followed by a load does (see Findings), and a
  corrected writer whose round trip is proved.
- `toolbox.dfy` (`Toolbox`): class `RCToolbox` with fields `order` and
  `selectedPenalties`, whose methods update them in place and are each proved equal to
  the ledger function they implement. `output_penalties` and `import_penalties` keep
  their loops, including the inner category search that stops at the first match.

The model follows the code, including these behaviours:

- `add_name` on an existing name resets that participant's list to empty; it is not a no-op.
- A name consisting only of spaces is accepted; only the empty string is refused.
- `output_penalties` writes only one summary row per participant, with no per-incident rows.
- `import_penalties` silently skips incident names that are not in the table; it raises no
  error for them. A non-integer points column stops the load with a ValueError, and the
  row's participant has already been registered by then.
- A failed load keeps every row applied before the failing one; the exception then escapes the handler (see "## Left out").

## Model

| member | source | states |
|---|---|---|
| Catalog.PointsIn | rcstuff.py:150-153 | `incidents[incident]` within one category, None where Python raises KeyError; its contract is PointsInSound and PointsInFindsEntry |
| Catalog.LookupIn | rcstuff.py:150-153 | `penalties[offense][incident]` over a table; its contract is LookupInSound and LookupInFindsEntry |
| Catalog.FindCategoryIn | rcstuff.py:243-246 | the first category listing an incident name; its contract is FindCategoryInSound and FindCategoryAgreesWithLookup |
| Catalog.PointsInSound | rcstuff.py:150-153 | a lookup within one category succeeds exactly when the category lists the incident name, and returns that entry's points |
| Catalog.LookupInSound | rcstuff.py:150-153 | `penalties[offense][incident]` succeeds only with the points of an entry listed under that category |
| Catalog.FindCategoryInSound | rcstuff.py:243-246 | the import's category search finds a category exactly when some category lists the name, and the one it returns lists it |
| Catalog.ContactNames | rcstuff.py:22-25 | "Contact" lists exactly "Minor contact" and "Wreck" |
| Catalog.DrivingNames | rcstuff.py:26-30 | "Driving" lists exactly "Off-road", "Corner cut" and "Reckless/endangering driving" |
| Catalog.MisbehaviorNames | rcstuff.py:31-35 | "Misbehavior" lists exactly "Failure to comply", "Not listening to EM" and "Disrupting the race" |
| Catalog.CatalogCategoriesApart | rcstuff.py:21-36 | category names are distinct and no incident name appears in two categories |
| Catalog.CatalogEntriesSound | rcstuff.py:21-36 | incident names within a category are distinct and every entry is worth at least 1 point |
| Catalog.CatalogWellFormed | rcstuff.py:21-36 | the table is well formed |
| Catalog.FindCategoryAgreesWithLookup | rcstuff.py:243-246 | in any well-formed table, the search by incident name returns `offense` iff `penalties[offense][incident]` exists |
| Catalog.LookupInFindsEntry | rcstuff.py:150-153 | in a well-formed table, each entry's pair looks up to exactly that entry's points |
| Catalog.PointsInFindsEntry | rcstuff.py:150-153 | within a category with distinct names, each entry's name looks up to its points |
| Catalog.LookupFindsEntry | rcstuff.py:21-36 | every entry of the toolbox's table looks up to its own points |
| Catalog.CategoryOfAgreesWithLookup | rcstuff.py:243-246 | on the toolbox's table the search by name is unambiguous: it yields `offense` iff `(offense, incident)` is an entry |
| Catalog.Points | rcstuff.py:150-153 | every listed pair is worth at least 1 point |
| PenaltyLedger.Total | rcstuff.py:150-153 | the sum of catalog points over a list is at least its length |
| PenaltyLedger.Reset | rcstuff.py:259 | `d[name] = []`, keeping an existing key's position; its contract is ResetKeepsValid and AddNameEffect |
| PenaltyLedger.Register | rcstuff.py:223-225 | registers an unseen name with `[]` and leaves a known one alone; its contract is ResetKeepsValid and ApplyRowEffect |
| PenaltyLedger.AddName | rcstuff.py:254-277 | add_name on the dictionary; its contract is AddNameEffect and AddNameResetsExisting |
| PenaltyLedger.AddPenalty | rcstuff.py:95 | `append((offense, incident))`; its contract is AddPenaltyEffect |
| PenaltyLedger.RemovePenalty | rcstuff.py:104 | `remove((offense, incident))`, failing where `list.remove` raises ValueError; its contract is RemovePenaltyEffect and RecordThenRemove |
| PenaltyLedger.TotalConcat | rcstuff.py:150-153 | the sum over a concatenation is the sum of the two sums |
| PenaltyLedger.TotalAppend | rcstuff.py:95 | appending a pair raises the sum by exactly that pair's points |
| PenaltyLedger.TotalRemoveFirst | rcstuff.py:104 | removing one copy of a pair lowers the sum by exactly that pair's points |
| PenaltyLedger.TotalIgnoresOrder | rcstuff.py:150-153 | two lists with the same multiset of pairs have the same total |
| PenaltyLedger.FirstIndex | rcstuff.py:104 | `list.remove` finds the first position holding the pair |
| PenaltyLedger.RemoveFirst | rcstuff.py:104 | removing the first copy takes exactly one copy of the pair out of the multiset |
| PenaltyLedger.ResetKeepsValid | rcstuff.py:223-225 | registering or resetting a name keeps the order a duplicate-free list of exactly the keys |
| PenaltyLedger.AddNameEffect | rcstuff.py:254-277 | the empty name fails with an Invalid Name warning; any other name ends with an empty list and zero points, keeps its position if present or goes last, and every other participant is unchanged |
| PenaltyLedger.AddNameResetsExisting | rcstuff.py:256-259 | re-adding a participant with penalties drops their total from positive to zero and keeps the order |
| PenaltyLedger.AddPenaltyEffect | rcstuff.py:94-95 | adding a pair appends exactly it, raises the total by its points, and changes no other participant and no key |
| PenaltyLedger.RemovePenaltyEffect | rcstuff.py:103-104 | removal fails iff the pair is absent; otherwise one copy leaves the multiset, the total falls by its points, and nothing else changes |
| PenaltyLedger.RecordThenRemove | rcstuff.py:94-104 | adding then removing the same pair succeeds and restores the total and the multiset of pairs |
| PenaltyLedger.RecordThenRemoveMayReorder | rcstuff.py:94-104 | adding then removing a pair need not restore the list order: `[p, q]` becomes `[q, p]` |
| PenaltyLedger.ThresholdExampleTotal | rcstuff.py:150-153 | four "Disrupting the race" and one "Off-road" total 21 |
| PenaltyLedger.RemovalCanRequalify | rcstuff.py:172-175 | a participant at 21 points is disqualified, and removing "Off-road" brings them to 20 and re-enables them |
| Transfer.DigitChar | rcstuff.py:200-202 | each digit value maps to a digit character that reads back as that value |
| Transfer.NatToString | rcstuff.py:200-202 | `str(n)` is a non-empty run of digits with no leading zero |
| Transfer.StripLeft | rcstuff.py:242 | stripping leading whitespace never lengthens the text and leaves no leading space; StripLeftDropsSpaces states what it removes |
| Transfer.StripRight | rcstuff.py:242 | stripping trailing whitespace never lengthens the text and leaves no trailing space; StripRightDropsSpaces states what it removes |
| Transfer.StripLeftDropsSpaces | rcstuff.py:242 | the stripped text is the input minus a prefix consisting only of whitespace |
| Transfer.StripRightDropsSpaces | rcstuff.py:242 | the stripped text is the input minus a suffix consisting only of whitespace |
| Transfer.ParseInt | rcstuff.py:242 | `int(points)`: None where Python raises ValueError; its contract is ParseIntOfNatToString, and ApplyRowFails states its role in the load |
| Transfer.GroupsValueOfNatToString | rcstuff.py:200-202 | the digits written for `n` have the value `n` |
| Transfer.ParseIntOfNatToString | rcstuff.py:242 | `int(str(n)) == n`: every points column the toolbox writes parses back |
| Transfer.TotalLabelIsNoIncident | rcstuff.py:243-246 | the search finds no category for "Total Penalty Points" |
| Transfer.TotalLabelNotListed | rcstuff.py:21-36 | no category lists "Total Penalty Points" |
| Transfer.SummaryRowAddsNothing | rcstuff.py:222-246 | a summary row with an integer points column only registers its participant |
| Transfer.ApplyRowEffect | rcstuff.py:222-246 | a three-field row with an integer points column raises no error, keeps the ledger valid, registers its name, changes no one else, and raises that participant's total by the catalog points of a listed incident or by nothing |
| Transfer.ApplyRowFails | rcstuff.py:222-242 | a row fails iff it lacks three fields or its points column is not an integer; a wrong field count changes nothing, a bad points column leaves the name registered |
| Transfer.ApplyRow | rcstuff.py:222-246 | one pass of the row loop; its contract is ApplyRowEffect and ApplyRowFails |
| Transfer.ApplyRows | rcstuff.py:221-246 | the row loop, stopping at the first failing row; its contract is ApplyRowsConcat, ImportStopsAtBadRow and ApplyRowsKeepsValid |
| Transfer.Import | rcstuff.py:218-246 | an empty file fails at `next(reader)`; otherwise the header is skipped and the rest loaded; its contract is ImportKeepsValid |
| Transfer.ApplyRowsKeepsValid | rcstuff.py:221-246 | loading any rows keeps the ledger valid, whether or not it stops early |
| Transfer.ImportKeepsValid | rcstuff.py:218-246 | loading a file keeps the ledger valid |
| Transfer.ApplyRowsConcat | rcstuff.py:221-246 | loading `a + b` stops inside `a` if `a` fails, and otherwise loads `b` onto what `a` left |
| Transfer.ImportStopsAtBadRow | rcstuff.py:221-246 | the first bad row ends the load with its error; rows before it stay applied and rows after it are never read |
| Transfer.PointsColumnIgnored | rcstuff.py:242-246 | files that differ only in the numbers of their points columns load identically |
| Transfer.NonReserved | rcstuff.py:194-195 | the written names are exactly the ledger's names other than "player" |
| Transfer.NonReservedDistinct | rcstuff.py:194-195 | no written name repeats |
| Transfer.SummaryRows | rcstuff.py:194-202 | one summary row per written name, in order |
| Transfer.SummaryRow | rcstuff.py:195-202 | `[name, "Total Penalty Points", str(total)]`; its contract is ExportShape and ParseIntOfNatToString |
| Transfer.ExportRows | rcstuff.py:178-202 | the rows output_penalties writes; its contract is ExportShape, ExportedNames and ExportOmitsReservedAndIncidents |
| Transfer.ExportShape | rcstuff.py:177-202 | nothing is written iff the ledger is empty; otherwise the header, then `[name, "Total Penalty Points", str(total)]` for each written name in insertion order |
| Transfer.ExportedNames | rcstuff.py:194-195 | every participant other than "player" is written exactly once |
| Transfer.ExportOmitsReservedAndIncidents | rcstuff.py:193-202 | no written row names "player" and every written row is a summary row |
| RoundTrip.PenaltiesSearchable | rcstuff.py:243-246 | the search finds each recorded pair under its own category and nothing for the summary label |
| RoundTrip.RowStep | rcstuff.py:222-246 | a row that loads cleanly registers its name and appends the pair the search finds |
| RoundTrip.RowsReplay | rcstuff.py:221-246 | rows that each load cleanly raise no error and leave the ledger their per-row effects describe |
| RoundTrip.RegistrationsFresh | rcstuff.py:223-225 | registering distinct new names appends them in order with empty lists and keeps every earlier entry |
| RoundTrip.SummaryRowsImport | rcstuff.py:218-246 | loading summary rows registers each written name, in order, with no pairs |
| RoundTrip.ExportThenImportForgetsPenalties | rcstuff.py:191-202 | saving and then loading into a fresh window keeps the participants other than "player", in order, each with 0 points |
| RoundTrip.ExportThenImportExample | rcstuff.py:218-246 | Alex with one "Off-road" has 1 point before saving and 0 after loading |
| RoundTrip.IncidentRows | rcstuff.py:194-202 | the corrected writer emits one well-formed row per recorded pair, carrying its incident name |
| RoundTrip.ExportRowsFull | rcstuff.py:191-202 | the corrected writer: per-incident rows before each summary row; its contract is FullExportImportRoundTrip |
| RoundTrip.IncidentsMatch | rcstuff.py:243-246 | each incident row loads as the append of its own pair |
| RoundTrip.BlockMatches | rcstuff.py:194-202 | each row of a participant's corrected block loads as the matching append or registration |
| RoundTrip.FullRowsMatch | rcstuff.py:194-202 | each row of the corrected file loads as the matching event |
| RoundTrip.AdditionsReplay | rcstuff.py:245 | appending a participant's pairs extends their list by exactly those pairs |
| RoundTrip.BlockReplay | rcstuff.py:223-246 | a participant's block adds them at the end of the order with exactly their list |
| RoundTrip.FullReplay | rcstuff.py:221-246 | the corrected file's rows add each written participant, in order, with exactly their list |
| RoundTrip.FullExportImportRoundTrip | rcstuff.py:218-246 | with the corrected writer, saving and then loading into a fresh window restores each participant other than "player", in order, with the same list and the same total |
| Toolbox.FindCategory | rcstuff.py:243-246 | the category loop returns the first category listing the incident, or none |
| Toolbox.SumPoints | rcstuff.py:196-199 | the accumulated points equal the catalog sum over the list |
| Toolbox.RCToolbox.constructor | rcstuff.py:44 | a new window holds an empty, valid ledger |
| Toolbox.RCToolbox.UpdatePenaltyCounts | rcstuff.py:149-175 | returns the participant's total and disables the button iff the total is at least 21 |
| Toolbox.RCToolbox.AddName | rcstuff.py:254-277 | performs add_name in place: the empty name warns and changes nothing; any other name gets an empty list |
| Toolbox.RCToolbox.AddPenalty | rcstuff.py:94-101 | appends the pair in place and returns the new total, the old one plus the pair's points, with the disabled flag |
| Toolbox.RCToolbox.RemovePenalty | rcstuff.py:103-110 | removes the first copy in place and returns the new total, the old one minus the pair's points, with the flag; fails and changes nothing when the pair is absent |
| Toolbox.RCToolbox.OutputPenalties | rcstuff.py:177-202 | the rows the loop writes are exactly the exported rows of the current ledger |
| Toolbox.RCToolbox.ImportPenalties | rcstuff.py:210-246 | the loop leaves the ledger and the error exactly as the row-by-row load describes, and keeps the ledger valid |

## Left out

- PyQt widgets, dialogs, message boxes, layouts and styling. Handlers return what they would display: a warning, a count and a disabled flag, or rows.
- `penalty_buttons`, `self.names` and `selected_name`, together with `closeEvent`, `changeEvent` and the `__main__` block. They are interface bookkeeping and have no effect on the ledger.
- File dialogs, files and CSV quoting. A cancelled dialog, which writes or reads nothing, is not modelled; a file is its rows.
- `int()` is modelled for ASCII text only: whitespace stripping, an optional sign, and digits with single underscores. Unicode digits and whitespace are not modelled. Nor is the limit on decimal digits of CPython 3.11 and later (4300 by default, configurable at run time): a points column longer than that raises ValueError there, but ParseInt accepts it.
- Uncaught exceptions: StopIteration at rcstuff.py:220, ValueError at rcstuff.py:222, 242 and 104 are not caught by the handlers, and escaping a Qt slot normally ends the application. The model returns them as failures (Transfer.ImportError, PenaltyLedger.LedgerError), with the dictionary as it was at the moment of the exception; what happens to the process afterwards is not modelled.
- Toolbox.RCToolbox.AddPenalty: requires the pair to be in the table and the participant to be registered, because the dialog only offers table entries for a listed participant. A pair outside the table would make the following `update_penalty_counts` raise KeyError.
- Transfer.ApplyRow: takes the table as a parameter (the toolbox always passes `Penalties`) so that facts about the loading loop hold for any table.

## Findings

| source | as written | input that shows it | evidently intended | confidence | as-written member | corrected member |
|---|---|---|---|---|---|---|
| rcstuff.py:191-202 | `output_penalties` writes only `[name, "Total Penalty Points", total]` rows, and `import_penalties` (rcstuff.py:243-246) skips those rows because the label is no incident name | a ledger where Alex has one "Off-road" (1 point): after saving and loading, Alex is back with 0 points | saving then loading restores every participant's penalties and totals | not executed | RoundTrip.ExportThenImportForgetsPenalties | RoundTrip.FullExportImportRoundTrip |
