# Verified models of trunkdb

trunkdb is an embedded document database. This project models the parts of it
where a fast or incremental path has to equal a simple meaning, and proves that
it does, for every input, every run and every interleaving the code promises it
for.

| file | what it models |
|---|---|
| `Values.dfy` | documents, exact numeric values, the order a sort uses |
| `Changes.dfy` | the net effect of a batch |
| `Live.dfy`, `LiveRows.dfy` | live queries kept sorted from what a commit wrote; live aggregates |
| `Powers.dfy`, `Rounding.dfy`, `WideInteger.dfy`, `ExactSum.dfy` | exact sums and means, rounded once |
| `WholeFloats.dfy` | which float is as large as an integer, and the two compared |
| `Canonical.dfy` | values a filter finds equal, and the one form they have for grouping |
| `Groups.dfy` | the group table of an aggregate |
| `Recovery.dfy` | commit, checkpoint, crash and reopening as a step machine |
| `Versions.dfy`, `Snapshots.dfy` | page versions kept for open snapshots; readers, batches and the gate beside each other |
| `Slotted.dfy`, `FreeSpace.dfy`, `Chains.dfy`, `PageOwners.dfy`, `Records.dfy` | record placement, overflow chains, who owns every page |
| `Packing.dfy`, `Catalog.dfy` | pages counted instead of written |
| `Codec.dfy`, `Decoded.dfy` | the binary codec, and what can be read at all |
| `Select.dfy`, `Selected.dfy` | selections decoded straight from bytes, and what a selection means |
| `IndexKey.dfy`, `KeyRange.dfy` | values as bytes of an index key, and the ranges of keys a condition reads |
| `Check.dfy` | the consistency check of an index |
| `Calendar.dfy`, `DateText.dfy` | civil calendar and RFC 3339 text |
| `Crc.dfy`, `KnownCrc.dfy` | CRC-32C by tables, and its check value |
| `Base64.dfy`, `Json.dfy`, `Export.dfy` | tagged JSON, and export and import as lines |

The main results, one each: `Live.Watch` (over every run a sorted live query sends,
commit by commit, what takes a reader's copy from exactly the first matches of
one state to those of the next) and `LiveRows.WatchRows`, `ExactSums.SumAll` with
`SumIgnoresOrder` and `MeanIgnoresKind`, `Canonicals.CanonicalMeans`,
`Groups.Aggregate` with `ShownIgnoresOrder`, `Recovery.CommittedIsWhatWasKept`
with `ReturnedIsFinal`, `DiskRecovers` and `OpenServes`, `Snapshots.Run` with
`OneSnapshot`, `Records.Run` with `PageOwners.EveryPageHasOneUse`,
`Packing.PredictPages`, `Catalog.PredictPages`, `Select.DecodeSelection` with
`Selected.ProjectMeans`, `Codec.RoundTrip` with `Decoded.ReadsIfNests`, `IndexKeys.KeysInOrder` with
`IndexKeys.ComparePartIs` and `KeyRanges.RangeCovers`, `Check.CheckIndex`, `Calendar.DayToDateAndBack` with
`DateText.DisplayParses`, `Crc.UpdateTable`, `Export.ExportRestores` with
`CutShortIsRefused`.

What these rest on has its meaning fixed apart from the definition that computes it:
the order of values by `Values.SortingRuns`, `Live.OrderRuns` and `Check.BeforeRuns`,
`min`, `max`, `first` and `last` by `Groups.MinIsSmallest` and `Groups.FirstIsEarliest`,
the value of a number by `WholeFloats.IntIsSoManyOnes` and `EveryIntHasAFloat`, the
paths of a selection by `Selected.AddMeans`, bytes and text by values written out
(`Codec.EncodedIs`, `KnownCrc.CheckValue`, `Base64.KnownTexts`, `DateText.KnownText`),
and that a batch and a checkpoint can end well by `Recovery.BatchGoesThrough` and
`Recovery.CheckpointEnds`.

Code that is not modelled in itself enters by what it promises, stated in the
contracts:

- `SlottedPage`: slots with cells, a free and a dead byte count; where on the
  page a cell's bytes lie is left out.
- `PageStore`: pages by id, a last-in first-out free list, a page count.
- The log: whole batches in order, and behind them at most the bytes of the
  batch being logged, whole or torn. A cut of the log or the file takes effect
  whole or not at all; a page not flushed may hold anything after a crash.
- An index tree: a sorted list of entries; a lookup finds what a tree in order
  holds (`Check.LooksUp`).
- A filter's condition is a total function of the document, and its sort keys
  are those of `sort_order`; a search at a state filters, sorts and takes.
- Equal values have equal value parts in an index key (`Check.PartsAgree`), which the
  encoding of keys gives (`IndexKeys.EqualTuples`).
- The machine makes an integer the nearest float, ties to even (`IndexKeys.CastOk`; `CastExists`
  has one for each), as section 5.4.1 of IEEE 754-2019 has it.
- An aggregate's rows have each a key of its own (`LiveRows.QueryOk`).
- The machine adds infinities and NaNs, and divides them, to the value section 6
  of IEEE 754-2019 gives; which NaN comes of it is open (`ExactSums.IeeeOk`).
- A UUID's text is read back as the UUID (`Json.IdsOk`).

Where the code and its documentation differ the model follows the code:
`parse_date` takes a plus sign in a two-character month or day, so a text RFC 3339
does not have is read (`DateText.PlusIsLetThrough`); of the texts read exactly
those without a plus sign past the first character of the date have two digits in
both (`DateText.PlusInDate`, `DateText.PlusInTime`). Hours and minutes after a Z are
read as if a plus stood there (`DateText.LetterIsLetThrough`); of the texts read exactly
those with no Z past the date but as their last character have an offset of RFC 3339
(`DateText.LetterInTime`). A batch that replaces the
whole file goes ahead beside a kept snapshot that the memory limit has ended, which
the code's comment on `pin` does not say (`Snapshots.Database.CheckAlone` for
exactly when, `Snapshots.AloneBesideKept` for a run that gets there). A sum is not
quite "the same total in any order": where it is NaN, and exactly there, which NaN it
is can depend on the order and, of a mean, on which NaNs there were
(`ExactSums.TotalIsOneFloat`, `ExactSums.NaNsDepend`); a caller rules that out by
having no NaN among the numbers and not both infinities. An export of an older file
that has a plain value for a document is not one an import takes: it imports exactly
if every document is an object (`Export.ExportImportsIf`).

## Model

| member | source | states |
|---|---|---|
| `Values.BytesAreTotal` | src/query.rs:3192-3212 | byte strings compare equal exactly if they are equal, and the other way round with the opposite sign |
| `Values.SortingIsAntisymmetric` | src/query.rs:3282-3294 | the sort's order of two values is the opposite of their order swapped, both ways it runs |
| `Values.SortingIsTransitive` | src/query.rs:3241-3294 | the sort's order is a total preorder over all kinds of values, numbers by exact value, NaN, arrays and objects last |
| `Values.SortingRuns` | src/query.rs:3225-3294 | of two values the one comes first that: is of the earlier kind, null, bool, number, text, id, date-time, binary in turn; of two bools or times the lesser; of two numbers the one of less exact value; of two byte strings a proper beginning, or the one with the smaller byte where they first differ. All of it the other way round for `Desc`; arrays, objects and NaN after every other value both ways. Any two others tie |
| `Values.WholeNumbersRun` | src/query.rs:3192-3199 | integers by size |
| `Changes.ChangeLog.Written` | src/changes.rs:184-206 | the log then records the run with this write in it: each document once, in order of first touch, with whether it existed before |
| `Changes.ChangeLog.Dropped` | src/changes.rs:207-222 | a dropped collection takes its documents' entries out and leaves one of its own |
| `Changes.ChangeLog.Finish` | src/changes.rs:224-245 | gives the net changes of the run recorded |
| `Changes.Batch` | src/changes.rs:184-245 | a whole batch: refused where an operation does not apply, else the net changes of its operations and the state after |
| `Changes.NetEffectReplays` | src/changes.rs:184-245 | the changes reported, replayed on the documents before a valid run, give the documents after it, for every run |
| `Changes.NetLists` | src/changes.rs:224-245 | every change listed is of something touched, and none is of a document absent before and after |
| `Changes.ReportedInOrder` | src/changes.rs:224-245 | changes come in the order of first touch |
| `Changes.ReportedOnce` | src/changes.rs:224-245 | no document is listed twice, and a dropped collection before anything of it |
| `Changes.UntouchedIsAsBefore` | src/changes.rs:184-245 | a document no change names is as it was before the batch |
| `Live.OrderIsTotal` | src/live.rs:263-269 | sort keys then id order any two members one way, and only the same id is equal |
| `Live.OrderIsTransitive` | src/live.rs:263-269 | and transitively |
| `Live.OrderRuns` | src/live.rs:263-269 | the one goes before whose value comes first at the first key where the two do not tie, or, all keys tying, whose id is the smaller byte string |
| `Live.ViewIsUnique` | src/live.rs:281-296 | a state has one list of the first `limit` matches in order |
| `Live.ViewRuns` | src/live.rs:281-296 | a view lists its members so, and every match it leaves out goes after every member |
| `Live.CertainPrefix` | src/live.rs:470-511 | the old members and the written documents alone decide the new list up to the last old member still there, as every match left out comes after it |
| `Live.NotFullHoldsAll` | src/live.rs:289-296 | a window below its limit holds every match, so nothing can be missing from what is known |
| `Live.AllThenTake` | src/live.rs:582-604 | the first `limit` of all matches in order are the view |
| `Live.FindAt` | src/live.rs:582-604 | reading again gives the view of the state |
| `Live.KnownNow` | src/live.rs:470-511 | the members known after a commit are the old ones not written and the written documents that match |
| `Live.SortKnown` | src/live.rs:470-511 | and in order, each once |
| `Live.NewList` | src/live.rs:470-511 | the new list is the view of the new state, from what is known if the certain prefix reaches, else from reading again |
| `Live.Watcher.TakeOutGone` | src/live.rs:512-536 | every member not in the new list is taken out, each event at an index in range, the list in order after each step |
| `Live.Watcher.PutInNew` | src/live.rs:537-571 | every new member is put in at its place, in order after each step, changed ones told |
| `Live.Watcher.Reorder` | src/live.rs:470-577 | the window is then the view of the new state, and the events replayed in turn on the old list give the new one |
| `Live.Watcher.Settle` | src/live.rs:447-468 | after a commit the watcher shows the new state, having sent what takes a reader there on top of what it had sent |
| `Live.Watcher.Changed` | src/live.rs:381-422 | one change seen: an unsorted query's set is right at once, with one event more at most; a sorted one's written documents are remembered and nothing is sent |
| `Live.Watcher.Dropped` | src/live.rs:424-445 | a dropped collection leaves the watcher empty, and every event sent for it, on top of those before, says that a document has left |
| `Live.Watcher.constructor` | src/live.rs:311-366 | a watcher begins with the view of its state, told in order |
| `Live.NetTells` | src/live.rs:610-650 | what a batch reports, told in turn, gives every document of the collection as the batch left it |
| `Live.BatchTells` | src/live.rs:610-650 | so every batch's report is enough for every live query |
| `Live.Check` | src/live.rs:610-650 | a live query checked with a commit's report shows the state that commit left, and has only sent more |
| `Live.Watch` | src/live.rs:447-650 | over every run of batches, failed ones included: what is sent for each batch, replayed on a reader's copy of what the filter finds before it, gives what the filter finds after it; a failed one sends nothing |
| `Live.ShowsOne` | src/live.rs:582-604 | there is one such copy for a state |
| `LiveRows.SameInTurn` | src/live.rs:848-859 | `same` carries on: a row told once and the same ever since is the same as the row there |
| `LiveRows.AggregateWatcher.constructor` | src/live.rs:892-915 | a live aggregate begins with every row told as entered |
| `LiveRows.AggregateWatcher.Rerun` | src/live.rs:922-963 | a reader told the events, on top of those before, has exactly the new rows by group, but for a row that is the same; and is told of no others: of a row that left with what its group has now |
| `LiveRows.WatchRows` | src/live.rs:966-978 | over every run of batches, those that leave the collection alone and those that fail included, what was told after each comes to the rows of the aggregate there |
| `Rounding.RoundingIsUnique` | src/aggregate.rs:779-818 | a quotient has one nearest float, ties to even, infinity from the overflow threshold on (section 4.3.1 of IEEE 754-2019) |
| `Rounding.OverflowThreshold` | src/aggregate.rs:779-818 | it rounds to infinity exactly from half a unit past the largest float on |
| `Rounding.AtMostAFloat` | src/aggregate.rs:779-818 | what is at most a float rounds to at most it |
| `Rounding.AtLeastAFloat` | src/aggregate.rs:779-818 | and what is at least one to at least it |
| `WideInteger.Wide.Add` | src/aggregate.rs:710-735 | the 34 limbs' two's complement value grows by the signed, shifted value, through carry and borrow, if it stays in range |
| `WideInteger.SignAndMagnitude` | src/aggregate.rs:760-775 | the sign and the absolute value of the limbs |
| `WideInteger.Negate` | src/aggregate.rs:760-775 | the limbs' two's complement |
| `WideInteger.Divide` | src/aggregate.rs:745-757 | limbs divided in place: quotient and remainder of the whole number |
| `WideInteger.HighestBit` | src/aggregate.rs:779-818 | the place of the highest bit set, if any |
| `WideInteger.Significand` | src/aggregate.rs:779-818 | 53 bits from a place on |
| `WideInteger.AnyBit` | src/aggregate.rs:779-818 | whether a bit below is set, exactly |
| `WideInteger.Rounded` | src/aggregate.rs:779-818 | the float nearest to the magnitude with its remainder, ties to even, subnormal, normal or infinite |
| `WideInteger.RoundedLarge` | src/aggregate.rs:779-818 | the same for magnitudes of more than 53 bits |
| `ExactSums.SumIsInRange` | src/aggregate.rs:695-735 | the sum of fewer than 2^64 numbers never leaves the accumulator's range, so it never wraps |
| `ExactSums.ExactSum.Add` | src/aggregate.rs:634-660 | one more number held exactly, or a value that is no number passed over |
| `ExactSums.ExactSum.Total` | src/aggregate.rs:663-668 | the exact real sum rounded once, never -0.0; with infinities or NaNs their sum as the machine adds them in turn, by value and to the bit |
| `ExactSums.ExactSum.Sum` | src/aggregate.rs:671-680 | an integer where every number was one and it fits, else the total |
| `ExactSums.ExactSum.Avg` | src/aggregate.rs:682-688 | nothing of no numbers, else the exact total by the count, rounded once; with infinities or NaNs their sum as the machine divides it |
| `ExactSums.SumAll` | src/aggregate.rs:634-688 | for every sequence of fewer than 2^64 values the sum and the mean of the numbers among them, with infinities or NaNs to the bit what the machine makes of them |
| `ExactSums.OrderDoesNotMatter` | src/aggregate.rs:634-688 | the same numbers in any order may have the same totals and means |
| `ExactSums.TotalIsUnique` | src/aggregate.rs:663-668 | a total is one float, or NaN: one float if no number is NaN and not both infinities are there |
| `ExactSums.MeanIsUnique` | src/aggregate.rs:682-688 | so is a mean |
| `ExactSums.TotalIsOneFloat` | src/aggregate.rs:645-688 | a total, and a mean, is one float to the bit if and only if no number is NaN and not both infinities are there |
| `ExactSums.OneSpecialIsKept` | src/aggregate.rs:645-648 | a number alone that is not finite is handed on with its bits |
| `ExactSums.NaNsDepend` | src/aggregate.rs:645-648 | on a machine on which the first NaN stays, two NaNs in the other order have another sum |
| `ExactSums.SumIgnoresOrder` | src/aggregate.rs:671-680 | what `sum` hands out is the same for every permutation of the numbers, or NaN for every one: the same to the bit if no number is NaN and not both infinities are there |
| `ExactSums.MeanIgnoresKind` | src/aggregate.rs:682-688 | what `avg` hands out depends only on the numbers' exact values: not on their order, nor on whether a whole number came as an integer or a float; to the bit if no number is NaN and not both infinities are there, and else it is NaN |
| `ExactSums.MeanLiesBetween` | src/aggregate.rs:682-688 | the mean of finite floats lies between the smallest and the largest, so it is finite |
| `WholeFloats.IntIsSoManyOnes` | src/aggregate.rs:634-639 | an integer counts as so many times the float 1.0, whose bits are 0x3FF0000000000000 |
| `WholeFloats.IntIsAFloat` | src/aggregate.rs:634-660 | the float as large as an integer of at most 53 bits has its sign, its highest bit for the exponent and the bits past that for the fraction |
| `WholeFloats.EveryIntHasAFloat` | src/aggregate.rs:634-660 | for every integer of at most 2^53 there is a float as large |
| `WholeFloats.MeanOfOne` | src/aggregate.rs:682-692 | the mean of one integer is the float as large |
| `WholeFloats.MeanOfThree` | src/aggregate.rs:682-692 | the mean of the integer 3 is 3.0, to the bit |
| `WholeFloats.BitsOfSpecials` | src/aggregate.rs:640-654 | which bits are the two infinities, and which a NaN |
| `WholeFloats.IntVsFloatIsExact` | src/query.rs:3216-3239 | an integer against a float, by the whole part and what is left or past the ends of 64 bits at once, is the order of the exact values; none for NaN |
| `Canonicals.CanonicalMeans` | src/query.rs:3114-3156 | for any two documents: a filter finds them equal if and only if their canonical forms are the same and there is no NaN in them, at every depth and whatever the order of fields |
| `Canonicals.NumbersHaveOneForm` | src/query.rs:3138-3156 | numbers have one form exactly if they have one value, NaN aside |
| `Canonicals.EncodedAlike` | src/query.rs:3138-3156 | the encodings of two forms are the same exactly if the forms are |
| `Groups.GroupedAsEqual` | src/aggregate.rs:1189-1199 | two values are one group if and only if a filter finds them equal, or both have the same NaN in the same place |
| `Groups.NormIsOrder` | src/aggregate.rs:825-837 | ordered values are one group exactly if the sort finds them equal |
| `Groups.BetterIsTransitive` | src/aggregate.rs:1318-1337 | `min` and `max` compare values, then matches, transitively |
| `Groups.MinIsSmallest` | src/aggregate.rs:1268-1337 | of the row handed out: for `min` no value of the group comes before the one chosen, for `max` none after it, by exact number or first differing byte; every ordered value is chosen over every unordered one; of equal ones the earliest match; null exactly where no match of the group has a value |
| `Groups.FirstIsEarliest` | src/aggregate.rs:1076-1116 | of the row handed out: for `first` the match whose ordering value, then place, is least, for `last` the one whose is greatest; null exactly where there is none |
| `Groups.Groups.AddDocument` | src/aggregate.rs:964-994 | the table then is that of the matches with this one, every group and column |
| `Groups.Groups.AddEntry` | src/aggregate.rs:1000-1017 | the same, fed an index entry that knows numbers only by value |
| `Groups.Groups.AddEntryToLast` | src/aggregate.rs:1023-1045 | the same for an entry whose group's values are not decoded again, numbers marked to be read |
| `Groups.Groups.AddEntryOf` | src/aggregate.rs:1189-1218 | the match joins its group, made if new, and the group keeps the values of its earliest match |
| `Groups.Groups.AddValues` | src/aggregate.rs:1047-1117 | every column takes the match in by its kind, if it meets the column's condition |
| `Groups.Groups.Finish` | src/aggregate.rs:1225-1280 | the rows are exactly those of the matches: a row per group, its first match's values as stored, and of each column the count, the value, or the numbers it adds up; without group fields one row at least |
| `Groups.RowsIgnoreOrder` | src/aggregate.rs:1189-1337 | the rows of the same matches are the same whatever order they came in, given distinct places |
| `Groups.Aggregate` | src/aggregate.rs:947-1280 | for every mix of documents and index entries, of columns `needs_documents` allows, the rows are those of the matches, and every column hands out its value: the exact sum of the column's numbers, their mean (of either, where it is NaN, some NaN), the count, the extreme, the first or the last |
| `Groups.HandedOutIsOne` | src/aggregate.rs:1254-1264 | a sum and a mean are one document each, or NaN, in whatever order the numbers were added, the mean whether a whole number came as an integer or as a float; one document if no number is NaN and not both infinities are there |
| `Groups.HandedOutIsAnyNaN` | src/aggregate.rs:1254-1264 | and only then: else any NaN may be what is handed out |
| `Groups.ShownIgnoresOrder` | src/aggregate.rs:1189-1337 | what is handed out for a group is the same whatever order the matches came in, but for which NaN a sum or a mean is that is one |
| `Recovery.TornIsCovered` | src/database.rs:460-488 | pages half written do not matter to recovery where the log holds them or they are past the end |
| `Recovery.NextKeeps` | src/database.rs:862-998 | every step of commit, undo, checkpoint, crash and reopening keeps the invariant |
| `Recovery.RunHolds` | src/database.rs:862-998 | so every state of every run has it |
| `Recovery.CommittedIsWhatWasKept` | src/database.rs:862-998 | in every state in which the database serves, it serves exactly the batches kept, in order (but for one logged and not published yet); every batch whose `transact` returned Ok is kept, none that returned an error on a database not poisoned; and from any state of the run to any later one, crashes and opens between, no attempt so settled changes |
| `Recovery.ReturnedIsFinal` | src/database.rs:862-998 | a batch that has returned Ok is in the database in every later state of the run, one that has returned an error in none |
| `Recovery.RunCarries` | src/database.rs:862-998 | an attempt whose fate is decided, by its return, by a later batch or by an open after it, stays as it is through every later step |
| `Recovery.DiskRecovers` | src/database.rs:316-321 | at every moment what lies on disk opens to just that, however unflushed pages turned out, cut logs reappear, or the last record is whole or torn |
| `Recovery.OpenServes` | src/database.rs:460-488 | from every state a crash leaves, an open without further trouble ends and serves the batches kept |
| `Recovery.BatchGoesThrough` | src/database.rs:862-998 | from every state the invariant allows in which the writer is free, however many batches the log holds, every batch that fits can be logged, published and returned Ok: served is then the state before with it in |
| `Recovery.BatchCanFail` | src/database.rs:923-942 | and every one can fail to be logged and be undone: Err, nothing served changed, the writer free |
| `Recovery.CheckpointEnds` | src/database.rs:316-321 | a checkpoint that meets no trouble ends, after a batch or inside one: the log empty, nothing unwritten or unflushed, the file the last commit |
| `Recovery.CrashCanCome` | src/database.rs:923-998 | the machine can go down at every open moment, unflushed pages turned out any way, an unflushed cut undone or the bytes being logged whole |
| `Recovery.TroubleCanCome` | src/database.rs:316-321 | and a log, an undo, a checkpoint and a cut can fail wherever they are under way |
| `Versions.Prune` | src/storage/pages.rs:189-205 | dropping versions changes nothing an open snapshot reads, nor the newest; without snapshots one is left |
| `Versions.Write` | src/storage/pages.rs:404-437 | a page written by a commit: every open snapshot still sees the page as its own commit left it |
| `Versions.Memory.Forget` | src/storage/pages.rs:143-152 | dropping versions in every page keeps every open snapshot and the last commit readable, and the count of older versions exact |
| `Versions.Memory.KeepWithinLimit` | src/storage/pages.rs:158-170 | afterwards no more older versions than the limit are kept, and every snapshot not ended reads its own commit |
| `Versions.Memory.Commit` | src/storage/pages.rs:391-440 | the batch's pages are the newest; every snapshot told open and not ended reads its own commit; the older versions are within the limit |
| `Versions.Memory.CommitReplacing` | src/storage/pages.rs:451-470 | a whole image in place of every page past the header, when no snapshot is open |
| `Versions.Memory.LookUp` | src/storage/pages.rs:277-301 | a reader of an open commit gets its page, or goes to a file that has it; refused only if its commit was ended |
| `Versions.Memory.Take` | src/storage/pages.rs:313-326 | what was read from the file counts unless a checkpoint began since, and caching it changes nothing |
| `Versions.Memory.WriteFile` | src/storage/pages.rs:624-644 | writing, or half writing, a page that waits changes nothing anybody reads |
| `Versions.Memory.EndCheckpoint` | src/storage/pages.rs:557-602 | once the waiting pages are written the file holds the last commit, and every open snapshot reads on |
| `Versions.Checkpointed` | src/storage/pages.rs:557-602 | read from the file or from versions, every page is the same before and after |
| `Snapshots.Database.Pin` | src/database.rs:732-774 | the last commit is held, unless the gate is held alone or the commit is being replaced |
| `Snapshots.Database.Clone` | src/database.rs:747-761 | a kept commit is held once more, refused exactly if the limit has ended it |
| `Snapshots.Database.Live` | src/database.rs:329-338 | exactly the replaced commits somebody holds and the limit has not ended, ascending |
| `Snapshots.Database.TakeGate` | src/database.rs:908-920 | a batch that replaces the whole file waits for the reads under way; others do not |
| `Snapshots.Database.CheckAlone` | src/database.rs:913-922 | it goes on if and only if nobody holds a commit the limit has not ended |
| `Snapshots.Database.Announce` | src/database.rs:944-956 | the list given to the pages is exactly the commits somebody holds and the limit has not ended |
| `Snapshots.Database.Install` | src/database.rs:956-960 | the new commit is current, and every commit still held reads as it was |
| `Snapshots.Database.LookUp` | src/storage/pages.rs:277-301 | a reader gets its own commit's page, or is refused as ended, or is sent to the file |
| `Snapshots.Database.Take` | src/storage/pages.rs:307-326 | what a reader takes from the file is its own commit's page |
| `Snapshots.Database.EndCheckpoint` | src/database.rs:316-321 | with the list made when it began, and snapshots taken since, every commit held reads on |
| `Snapshots.Database.FailCheckpoint` | src/storage/pages.rs:540-556 | a file half written is read only where it is not |
| `Snapshots.Run` | src/database.rs:732-965 | in every interleaving of readers, pins, batches, replacements and checkpoints each step does what it is to: each lookup is answered with the page its commit left, or sent to the file, or refused exactly because the limit has ended that commit; whenever a batch is published, every commit held and not ended is on its list, and one that replaces the whole file finds no read under way and no such commit |
| `Snapshots.OneSnapshot` | src/database.rs:732-774 | as long as a snapshot is held it is one commit, and what that left never changes |
| `Snapshots.AloneBesideKept` | src/database.rs:905-922 | a run in which a replacing batch goes ahead while somebody keeps a snapshot the limit has ended |
| `Slotted.InsertReusing` | src/storage/slotted.rs:337-354 | the cell in a tombstone's slot or a new one, the other slots as they were, nothing past the page's room |
| `Slotted.Updated` | src/storage/slotted.rs:361-387 | the cell replaced if and only if it fits with the page's dead bytes reclaimed, the other slots as they were |
| `Slotted.Deleted` | src/storage/slotted.rs:319-321 | the cell gone and its bytes reclaimable, the others as they were |
| `Slotted.LastCell` | src/storage/slotted.rs:487-491 | a page with one live cell is empty without it |
| `Slotted.FitsIfRoom` | src/storage/slotted.rs:323-330 | a cell fits if and only if a tombstone's slot or a new one can have it, dead bytes reclaimed |
| `FreeSpaces.FreeSpace.Set` | src/free_space.rs:20-25 | both halves of the map have the page's new room |
| `FreeSpaces.FreeSpace.Remove` | src/free_space.rs:28-32 | and forget it together |
| `FreeSpaces.FreeSpace.Find` | src/free_space.rs:59-65 | the tightest fit, the lowest page of several; none exactly if no page has the room |
| `FreeSpaces.TightestIs` | src/free_space.rs:59-65 | the tightest fit has the room, no page that has it has less, and none with as little a lower number |
| `Chains.WalkChain` | src/data.rs:530-569 | on any pages, damaged ones included, a chain is found if and only if there is a whole one: distinct pages, linked, of just that length |
| `Chains.ChainIsUnique` | src/data.rs:530-569 | a chain from a page with a length is found in one way only |
| `PageOwners.EveryPageHasOneUse` | src/data.rs:308-356 | a page neither free nor somebody else's is the current page or has a document, or is in exactly one document's chain, never both |
| `PageOwners.CellPut` | src/data.rs:437-502 | placing or replacing a cell keeps every other record, page and chain |
| `PageOwners.CellDropped` | src/data.rs:337-356 | so does deleting one |
| `PageOwners.ChainAdded` | src/data.rs:508-524 | writing a chain takes its pages from the free list or the end, and no others |
| `PageOwners.ChainFreed` | src/data.rs:663-670 | freeing a chain gives back just its pages |
| `PageOwners.EmptyPageFreed` | src/data.rs:677-691 | so does freeing an empty page that is not current |
| `Records.Collection.WriteChain` | src/data.rs:508-524 | the bytes are in newly allocated pages, linked in order |
| `Records.Collection.FreeChain` | src/data.rs:663-670 | a record's chain is back on the free list, and nothing else |
| `Records.Collection.WriteCell` | src/data.rs:405-432 | a cell that fits an empty page, inline or by its chain; refused exactly above 2^32 - 1 bytes |
| `Records.Collection.NoteRoom` | src/data.rs:746-757 | the page's exact room in the map by its two thresholds; never the current page |
| `Records.Collection.PlaceCell` | src/data.rs:437-502 | where the cell goes and what it leaves: current page, else tightest fit, else a new page, the old one freed if empty; the record is read there and no other has changed |
| `Records.Collection.Insert` | src/data.rs:96-105 | a new location holds the document, all others theirs |
| `Records.Collection.Update` | src/data.rs:308-330 | the document is at its location or moved to a free one, all others as they were; refused where no live cell is, with nothing changed; refused where it is too long, with its old chain freed and everything else as it was |
| `Records.Collection.Delete` | src/data.rs:337-356 | the document is gone, all others as they were, an emptied page that is not current freed |
| `Records.Batch` | src/database.rs:880-890 | a batch of them: all of it, or with a document too long none of it, every page, the current one and the free-space map as they were |
| `Records.Collection.Get` | src/data.rs:136-160 | exactly the id and encoding last written at a location, put together from its chain |
| `Records.Run` | src/data.rs:96-356 | over every run of batches of inserts, updates and deletes: after each, every document last written is in the records at its location and nothing is anywhere else, every page has one use, documents not named have not moved, and a refused batch changed nothing; what is read back at the end is what was last written |
| `Packing.InsertFills` | src/data.rs:598-607 | on a page only filled an insert takes exactly a slot and the cell |
| `Packing.PlacingPushes` | src/data.rs:437-502 | `place_cell` on a collection only filled is one step of the prediction, whichever pages its ids are |
| `Packing.PackedBuild.Push` | src/data.rs:618-653 | `push` is that step |
| `Packing.PredictPages` | src/data.rs:607-659 | for every sequence of documents, into any file: `PackedBuild` fed the lengths of their cells counts exactly the data pages of the collection that has them, each at its own location |
| `Catalog.RebuiltPages` | src/catalog.rs:348-369 | the pages of a first fit of the cells |
| `Catalog.Pages.AppendCell` | src/catalog.rs:536-559 | the cell is on the first page of the chain with room, or on a new one at its end, every other cell where it was; it ends for every cell that fits an empty page |
| `Catalog.PredictPages` | src/catalog.rs:348-369 | for every sequence of cells: the count is exactly the pages of the chain after appending them, which has every cell once, in the order appended, and on each page the room a first fit leaves |
| `Codec.SkipValue` | src/document.rs:579-625 | on every byte string and nesting budget skipping stops where decoding does or fails with the same damage |
| `Codec.DecodeValue` | src/document.rs:508-548 | decoding along a cursor |
| `Codec.WriteDocument` | src/document.rs:434-487 | the encoding appended to a buffer |
| `Codec.RoundTrip` | src/document.rs:434-548 | decoding an encoded document followed by any bytes gives that document and those bytes, within the nesting budget and 32-bit lengths |
| `Codec.StoredRoundTrip` | src/document.rs:396-426 | a stored document read back with its id is the document, its id first |
| `Codec.EncodedIs` | src/document.rs:434-482 | every kind of value by its tag byte and what follows, numbers by their low byte first |
| `Codec.KnownBytes` | src/document.rs:434-487 | the object {"a": [258, "b"]}, to the byte |
| `Decoded.DecodedIsWritable` | src/document.rs:508-548 | whatever the bytes, what is decoded could have been written, and nests no deeper than was allowed |
| `Decoded.FewerLevels` | src/document.rs:508-548 | on every byte string, fewer levels decode the same or are refused as too deep, and nothing else |
| `Decoded.ReadsIfNests` | src/document.rs:434-548 | every document that can be written is read back if and only if its depth is allowed, and is else refused as too deep |
| `Decoded.NestsToDepth` | src/document.rs:505-548 | a document nests within so many levels exactly if so many open inside each other at most |
| `Decoded.Utf8Is` | src/document.rs:560-564 | text is bytes of characters in their shortest form, and only those: code points up to 0x10FFFF that are no surrogates (section 3 of RFC 3629) |
| `Select.DecodeObjectOf` | src/select.rs:295-325 | an object's selected fields, the rest skipped unbuilt, are the selection of the whole object, or its damage |
| `Select.DecodeInner` | src/select.rs:329-343 | so for a value selected in part |
| `Select.DecodeExcept` | src/select.rs:256-288 | an object less the excepted fields is what is left of the whole, or its damage |
| `Select.DecodeSelection` | src/select.rs:127-150 | for every byte string and selection the decode is the projection of the whole document with its id, and fails exactly when, and as, the whole decode does |
| `Select.DecodeFields` | src/document.rs:633-662 | the named fields of an object, damaged exactly as the whole; nothing read where only `_id` is named |
| `Select.Take` | src/select.rs:214-233 | the selected fields in the selection's order, from a map whose fields are swapped out |
| `Select.Remove` | src/select.rs:237-250 | the excepted fields taken out one after another leave the others in order |
| `Select.ProjectDocument` | src/select.rs:85-120 | the projection in memory |
| `Select.DecodedMaps` | src/document.rs:508-548 | what is decoded has no name twice in an object, whatever the bytes |
| `Select.AddKeepsTree` | src/select.rs:177-211 | adding a path keeps names apart at every place, and `_id` out at the top |
| `Selected.AddMeans` | src/select.rs:177-211 | for every tree and path: selected are the places selected before, and those at or under the path cut at its first step into an array, `_id` at the top aside |
| `Selected.TreeMeans` | src/select.rs:46-76 | so the tree of any paths selects just what some of them name |
| `Selected.ProjectMeans` | src/select.rs:85-120 | for every selection, document and path but `_id`'s: a value is handed out there just if something selected is there or under it and it is not excepted, an object as an object, and as it is where selected whole with nothing in it excepted; so an object with nothing selected under it is left out, one emptied by exceptions stays |
| `Selected.ProjectSingle` | src/select.rs:85-120 | a value that is no object is handed out, as it is, just if it is selected and not excepted |
| `Selected.SelectionHandsOut` | src/select.rs:46-120 | from the paths given: such a value is handed out just if a path selected names it, or none are selected at all, and no path excepted does |
| `Selected.IdIsHandedOut` | src/select.rs:85-120 | `_id` always |
| `Selected.ProjectInOrder` | src/select.rs:106-120 | `_id` first, then the fields in the order they were first selected |
| `IndexKeys.JoinedOrder` | src/index/key.rs:345-360 | where neither of two byte strings begins the other, what follows them plays no part unless they are the same |
| `IndexKeys.EscapeText` | src/index/key.rs:409-432 | text escaped, cut at the first byte without room, and ended |
| `IndexKeys.EscapedOrder` | src/index/key.rs:409-432 | the lesser text never has the greater bytes, cut or not |
| `IndexKeys.EscapedExact` | src/index/key.rs:136-143 | bytes that leave a byte of room stand for that text and no other |
| `IndexKeys.NumbersInOrder` | src/index/key.rs:390-407 | the lesser of two numbers, integer or float, infinite or not, by exact value, never has the greater bytes |
| `IndexKeys.NumbersExact` | src/index/key.rs:117-135 | numbers with the same bytes, below 2^53, are the same number |
| `IndexKeys.KnownParts` | src/index/key.rs:366-388 | null, a bool, a text with a zero in it and an array, to the byte |
| `IndexKeys.KnownNumbers` | src/index/key.rs:366-407 | 1.0 and a time, to the byte |
| `IndexKeys.PartsInOrder` | src/index/key.rs:345-388 | keys stand in the order of the sort, for every two values of any kinds: those sorted one way never have bytes the other way |
| `IndexKeys.SameParts` | src/index/key.rs:345-388 | values that tie in the sort have the same bytes |
| `IndexKeys.PartsApart` | src/index/key.rs:358-388 | no part of a key begins with another |
| `IndexKeys.ExactParts` | src/index/key.rs:104-146 | two values whose part is the same, and is told to stand for one value, are equal to a filter |
| `IndexKeys.ComparePartIs` | src/index/key.rs:238-269 | what the bytes say of how two values compare is how a filter compares them, that it does not included; they say nothing exactly if they are the same and stand for more than one value |
| `IndexKeys.KeysInOrder` | src/index/key.rs:314-338 | compound keys stand in the order of the sort of their values at the first place where their parts differ, and where none do in that of their ids |
| `IndexKeys.EqualTuples` | src/index/key.rs:320-338 | documents whose values tie at every key have the same bytes |
| `IndexKeys.StringLen` | src/index/key.rs:302-312 | where a text in a key ends, an escaped zero being no end |
| `IndexKeys.SplitBack` | src/index/key.rs:276-312 | a key is split into just the parts it was made of |
| `KeyRanges.PrefixEndOf` | src/index/key.rs:487-500 | the prefix with its last byte below 255 one more and none after |
| `KeyRanges.PrefixRange` | src/index/key.rs:451-457 | the keys in a prefix's range are just those that begin with it |
| `KeyRanges.IntersectIs` | src/index/key.rs:459-467 | the keys in the intersection are just those in both ranges |
| `KeyRanges.UnderIs` | src/index/key.rs:474-485 | the keys in a range under a prefix are just those that begin with it and go on in the range |
| `KeyRanges.RangeIs` | src/index/key.rs:515-530 | in the range of a comparison are just the keys of values of the kind asked for whose bytes stand so to the value's, whatever follows them |
| `KeyRanges.RangeCovers` | src/index/key.rs:503-543 | every value of which a condition holds has its key in the condition's range |
| `KeyRanges.RangeHasFewMore` | src/index/key.rs:503-530 | and what else is in it has the very bytes of the value |
| `KeyRanges.PartStartsWithIs` | src/index/key.rs:546-577 | what the bytes say of how a text or binary begins is so; they say nothing only of one that may have been cut |
| `Check.Expected` | src/check.rs:300-345 | how many entries the readable documents call for |
| `Check.CountDecides` | src/check.rs:392-404 | right entries in strict order are at most those called for, and as many only if they are all of them |
| `Check.ReportEqual` | src/check.rs:522-542 | a pair of documents with equal values is reported, once |
| `Check.BeforeRuns` | src/check.rs:633-648 | the order entries are held to: the smaller part by bytes, then the smaller id |
| `Check.BeforeIsByBytes` | src/index/key.rs:345-360 | which is that of the bytes of the whole keys |
| `Check.SameInRun` | src/check.rs:493-517 | a run is reported exactly if two documents in it share a value |
| `Check.NameMissing` | src/check.rs:550-606 | of the documents exactly those with a key called for and not found are named; and two with equal values under an entry's part are reported, if nothing was before |
| `Check.CompareUnder` | src/check.rs:583-603 | each of a document's values against the records of other documents whose entries are under its part: an equal one is reported |
| `Check.CheckIndex` | src/check.rs:405-468 | nothing is reported if and only if the index holds exactly the entries the readable documents call for, in strict order, and for a unique index no two documents share a value; and every problem reported is one |
| `Check.Claims.ClaimAs` | src/check.rs:267-291 | no problem is reported if and only if every page claimed is in the file and claimed again only by its owner as shared |
| `Calendar.DayToDateAndBack` | src/datetime.rs:324-354 | every day is of a date that exists, and that date's day is the day |
| `Calendar.DateToDayAndBack` | src/datetime.rs:324-354 | every date that exists comes back from its day |
| `Calendar.YearOfEraIs` | src/datetime.rs:337-345 | the division formula gives the year of the era a day is in |
| `Calendar.DaysGoOn` | src/datetime.rs:324-335 | the date after a date, by the lengths of months and leap years, has the next day |
| `Calendar.DayAfter` | src/datetime.rs:338-354 | day 0 is 1970-01-01, and every next day the next date |
| `DateText.DisplayParses` | src/datetime.rs:132-153 | parsing the text of any point in time gives it back, to both ends of the range and with expanded years |
| `DateText.KnownText` | src/datetime.rs:132-153 | 1 790 000 000.12 seconds is `2026-09-21T14:13:20.12Z` |
| `DateText.LocalParses` | src/datetime.rs:233-272 | a time written as local time with its offset, east or west, is read as the point in time |
| `DateText.DateBack` | src/datetime.rs:277-307 | parsing the text of any date of up to twelve digits of year gives it back |
| `DateText.ClockBack` | src/datetime.rs:233-272 | and of any second of a day |
| `DateText.FractionBack` | src/datetime.rs:233-272 | and of any nanoseconds, by one to nine digits |
| `DateText.ReadTwoDigits` | src/datetime.rs:310-321 | two-digit fields between separators, exactly as many as asked for |
| `DateText.PlusInDate` | src/datetime.rs:277-307 | of all texts `parse_date` reads, exactly those with no plus sign past the first character have a month and a day of two digits |
| `DateText.PlusInTime` | src/datetime.rs:233-272 | the same of all texts the whole parser reads, between the first character and the end of the date |
| `DateText.PlusIsLetThrough` | src/datetime.rs:233-307 | the whole parser reads `2026-+1-01T00:00:00Z` as the first second of 2026 |
| `DateText.ClockReads` | src/datetime.rs:233-247 | the clock texts read are just those of the seconds of a day |
| `DateText.OffsetReads` | src/datetime.rs:255-265 | the offsets read are Z of either case, and just the hours and minutes below a day after a sign or, then as after a plus, after a Z |
| `DateText.LetterInTime` | src/datetime.rs:233-272 | of all texts the parser reads, exactly those with no Z past the date but as their last character have an offset as section 5.6 of RFC 3339 has it |
| `DateText.LetterIsLetThrough` | src/datetime.rs:255-265 | for every time, hours and minutes below a day, and either case: its local text with a Z before them is read as that time |
| `DateText.DateExists` | src/datetime.rs:277-307 | a date read is one that exists |
| `DateText.BackIs` | src/datetime.rs:52-63 | a duration before a time, or the earliest time if that is before it |
| `Crc.Tables` | src/crc32.rs:20-44 | the tables hold each byte followed by 0 to 7 zero bytes |
| `Crc.EightBytes` | src/crc32.rs:126-145 | eight bytes at once are eight bytes one by one |
| `Crc.ByteStep` | src/crc32.rs:140-144 | a byte's eight shifts by a look at its low byte |
| `Crc.UpdateTable` | src/crc32.rs:126-145 | for every start and byte string the table update is the bit-at-a-time definition (section 12.1 of RFC 3720) |
| `Crc.Crc32.Update` | src/crc32.rs:46-62 | a piece more is as if it were all one |
| `Crc.CrcOfPieces` | src/crc32.rs:46-62 | however bytes are cut into pieces the CRC is that of the whole |
| `KnownCrc.PolynomialIs` | src/crc32.rs:12-14 | the polynomial is 0x82F63B78 |
| `KnownCrc.CheckValue` | src/crc32.rs:165-168 | the checksum of the text 123456789 is 0xE3069283 |
| `Base64.EncodeText` | src/json.rs:302-322 | three bytes to four symbols, padded (section 4 of RFC 4648) |
| `Base64.DecodeText` | src/json.rs:324-344 | four symbols at a time, padding only at the end |
| `Base64.RoundTrip` | src/json.rs:302-344 | decoding what was encoded gives it back, for all bytes |
| `Base64.AlphabetIs` | src/json.rs:298 | capital letters, small letters, digits, plus and slash, and the equals sign for padding (section 4 of RFC 4648) |
| `Base64.KnownTexts` | src/json.rs:302-322 | known bytes and their text (section 10 of RFC 4648) |
| `Json.ReadBack` | src/json.rs:71-201 | every document written as tagged JSON is read back, but for what a NaN carries besides being one, objects that look like tags included; and a reader that knows no `$date` reads the same but for date-times |
| `Json.WrittenAsFinite` | src/json.rs:71-110 | no number written is other than finite, as JSON has none |
| `Json.LineBack` | src/json.rs:135-201 | a document's line gives back its id and the document, for every stored document |
| `Json.DateIsAName` | src/json.rs:135-201 | read without `$date`, an object with that one name is an object |
| `Json.TagsAre` | src/json.rs:32-42 | the tags as text |
| `Json.AcceptedIsDecoded` | src/document.rs:61-80 | a document a write accepts nests no deeper than a read decodes |
| `Json.AcceptedAsLine` | src/document.rs:55-80 | and its line in an export nests one level deeper at most, two if it is no object: what `$object` adds is counted by what a write accepts |
| `Export.IndexBack` | src/export.rs:573-613 | an index line is read as it was written |
| `Export.KeysAre` | src/export.rs:39-48 | the keys of the lines, as text |
| `Export.UnknownIsRefused` | src/export.rs:532-613 | an unknown key, wherever it stands, keeps an object from being an index, a collection, a header or an end line |
| `Export.DocumentLineIsNoOther` | src/export.rs:532-559 | a document's line is never taken for a header, a collection's or an end line |
| `Export.ImportLines` | src/export.rs:180-295 | the import, line by line: done, or refused with what it had written by then |
| `Export.ExportImports` | src/export.rs:97-151 | every export of documents that are objects imports with matching counts, as the creation of every collection, its documents and its indexes in order, however chunks fall |
| `Export.ExportImportsIf` | src/export.rs:97-295 | an export imports if and only if every document in it is an object |
| `Export.ExportRestores` | src/export.rs:97-295 | what is exported and imported into an empty database is the database, its documents being objects: just its collections, each with just its indexes, and just its documents under their ids, but for what a NaN carries |
| `Export.OlderImports` | src/export.rs:193-295 | an export of version 1 or 2, which has no end line, imports with all it has; its `$date`s date-times in version 2 and objects of that name in version 1 |
| `Export.OlderRestores` | src/export.rs:193-295 | and into an empty database restores just its collections, indexes and documents, so read |
| `Export.OlderEndIsRefused` | src/export.rs:216-221 | an end line after it is refused, and the import with it |
| `Export.OlderCutImports` | src/export.rs:280-290 | of a version before 3 every beginning that has the header imports: nothing tells that it was cut |
| `Export.CutShortIsRefused` | src/export.rs:280-290 | of a version 3 export that imports no proper beginning imports, and what is done of it is the beginning of what the whole does |
| `Export.CutExportLeaves` | src/export.rs:157-295 | an export cut short leaves in an empty database the beginning of what it restores |
| `Export.BadLineIsRefused` | src/export.rs:157-295 | a line refused part way leaves just the chunks written before it |
| `Export.ChunkIs` | src/export.rs:262-273 | a document with which its chunk is full is written with all before it, and any other waits |

## Left out

- Values.SortingIsTransitive: NaN payloads and UTF-8 validity of strings play no part in the order and are not modelled there.
- Live.Watch: a closure in a filter that panics, a read that fails and a receiver that has gone end a watcher; those ends, channels and timeouts are not modelled.
- LiveRows.WatchRows: the aggregate is a function of the collection's documents with one row a key; that its rows are right is `Groups.Aggregate`, and where a sum in one is NaN the function fixes which. An aggregate that cannot be read ends the watcher, which is not modelled.
- Groups.Aggregate: rows are by group, in no order; `having`, the row sort, skip and limit, and nesting group fields into a row are left out. Several matches unwound from one document are distinct matches, read again as themselves. `add_counted` is left out.
- Recovery.CommittedIsWhatWasKept: the database begins whole; creating the first file, the record format and its checksums, and read-only opens are left out.
- Records.Run: input and output errors, the bytes of a cell and damaged data pages are left out; damaged chains are not (`Chains.WalkChain`).
- Slotted.InsertReusing: where cells lie on the page and how compaction moves them.
- Check.NameMissing: the walk of the entries under a part is given, as that of a tree out of order need not find them all.
- Check.CheckIndex: walking pages and claiming them for the index; the claims are `Check.Claims.ClaimAs`.
- Codec.RoundTrip: a count or length that does not fit 32 bits, which a write refuses before.
- Json.ReadBack: JSON text and the text of finite floats are left to their library.
- Export.ImportLines: blank lines and the limit on a line's length.
- Export.ExportRestores: that building an index on the documents restored succeeds, as it did in the database exported; paths an index may not have.
- DateText.DisplayParses: conversion to and from the platform's own clock type.
- Crc.UpdateTable: hardware instructions.
- KeyRanges.RangeCovers: `primary_range`, and damaged keys but for their parts' lengths; `decode_part`.
- Selections answered from index entries, and paths as text: only paths already split into steps.
- The page cache's own replacement policy: a page may leave it at any time.
- Filter evaluation, the planner, the B-tree, regular expressions, UUID generation, serde conversions, file locks and paths.
- Freeing a dropped collection's pages, document statistics, and the wording of messages.
