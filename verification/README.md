# A verified model of anwesen's index

anwesen serves a vault of Markdown notes over HTTP. The index it answers from is
a cache of one thing: what a scan of the vault would find. This project models
how that cache is kept current while files change underneath it, and what the
query, merge, listing and doctor commands make of it, and proves the properties
a maintainer relies on.

## How the model is laid out

- `Text`, `Ordered`, `Paths`, `Notes`: Rust strings as byte strings with their
  order, `BTreeMap` iteration and range scans, vault-relative paths, values.
- `Store`: the note store, a class whose map the methods reassign.
- `Vault`: the directory tree, the pruned walk, `scan_from`.
- `Watcher`: native events to actions, coalescing, re-reading.
- `App`: the writer's messages and the scanner's cast.
- `Protocol`: the whole pipeline as a transition system. A step is one vault
  change with the events it raises, one lost event, the delivery of one event, the end
  of a window, the classification of one event (which probes the vault as it is
  then), one file read, one look of a directory walk at one path, a cast, or the
  handling of one message. The vault may change between any two steps.
- `Convergence`, `Changes`, `Safety`, `Progress`: the invariant, its proof, and
  what follows when the pipeline drains. `Runs`, `Races`: concrete runs, among
  them four that go wrong. `Debounce`: one debounce window as code and as
  steps. `Windows`, `Cuts`, `EventCuts`: the effect of one batch, and exactly
  when it matters where the stream is cut into windows.
- `Frontmatter`, `Encoding`, `Query`, `QueryPrint`, `Values`, `Evaluate`,
  `Sorting`, `Merge`: splitting notes, parsing and printing queries, matching,
  ordering and merging.
- `Events`, `Pruning`, `Operators`, `Codes`, `Prints`, `Document`: what the small
  functions mean apart from their definitions: each kind of event, the names the
  scan lets through, each query operator, the codes and grammars of a request, how
  values print, and what the merged text looks like and in what order.
- `Listing`, `Doctor`: folder listings, request paths, the doctor's reports.

The invariant behind convergence gives each pending element of the pipeline
(queued event, action of the open window, file still to be read, batch or
rebuild in the mailbox) the effect it would have on one path if the vault stood
still. The last effect along the pipeline decides what the store will say, and it
is always right. Nothing is claimed of a path whose file cannot be read: the code
keeps the old entry there (src/watcher.rs:350-356).

## What the code relies on and does not enforce

- No vault change falls between the startup walk and the binding of the
  watcher, and the watcher never restarts.
- Every directory is watched from the moment it exists. A file written into a
  new directory before its watch is bound raises no event; in the model it
  always raises one.
- Events are the paired inotify ones: a rename inside the vault is queued as
  `From`, `To` and `Both` together, between two different paths. `RenameUnpaired` is mapped by the model's
  `MapEvent` but raised by none of its vault operations.
- No symlinks, no backslashes or invalid UTF-8 in names, no unlistable
  directories, no special files.
- Four rules, the datatype `Protocol.Rule`. They are exactly what convergence
  needs: by `Races.RulesExactly` a set of rules makes every run that comes to
  rest agree with the vault if and only if it holds all four. For each of them
  `Races` gives a run that respects the other three and ends with nothing
  pending and the store wrong.
  - The rescan an overflow asks for does not start while the batch of the same
    window is being built. The code casts `RescanNow` before it builds that batch
    (src/watcher.rs:314-333).
  - No batch is cast while the scanner is between its walk and its cast
    (src/app.rs:248-274).
  - No metadata event names a directory whose name ends in `.md`. The comment at
    src/watcher.rs:68 says such events only ever name a file; a `chmod` of a
    directory raises one too. The resulting read fails with something other than
    not-found, which supersedes the delete of a note that stood at that path.
  - No event is lost on the strength of an overflow mark that other events are
    queued behind. inotify keeps at most one such mark queued, so a later loss
    gets none of its own; what was queued in between is then delivered after
    the rescan and may undo it.

  All but the third concern overflows alone: `Safety.LosslessIsCovered` shows that
  a run in which no event is lost needs none of them.

## Other findings

- An empty frontmatter block, `---` directly followed by a line `---`, is not
  recognised, although the comment at src/vault.rs:289-291 describes it as a
  block. `Frontmatter.SplitUndoesAssemble` gives the exact condition.
- Only a not-found read deletes; a read that fails because a parent has become a
  file keeps the entry (src/watcher.rs:347-356). The vanish event of the parent
  makes up for it.
- The comparator of `__anw-order` is not an order on numbers mixed with texts, on
  datetimes with fractional seconds mixed with texts, on years beyond 9999, on
  integers beyond 2^53 mixed with floats, or with NaN. The last two aside,
  `Values.LawfulExactly` says of any set of values exactly when it is one, and
  `Merge.OrderedExactly` that the sort has a strict total order exactly then;
  `Merge.NothingIsSorted` shows that otherwise there may be no sorted
  arrangement to return.
- Where the debouncer happens to cut the event stream can decide whether a note
  is in the index. For a readable note it does exactly when the last action about
  it is a delete while an upsert on another subject survives, as when a directory
  comes in with the note and a remove event that is no longer true follows. For a
  path that is not found it never does. `Cuts.CutsAgreeExactly` has the condition
  for all paths and all streams of actions, `EventCuts.EventCutsAgreeExactly` for
  streams of whole events.

## Model

| member | source | states |
|---|---|---|
| `Ordered.RangeScanExact` | src/store.rs:67-72 | `range(prefix..)` with `take_while(starts_with)` over sorted keys finds exactly the keys that start with the prefix, each once |
| `Paths.UnderIsProperPrefix` | src/store.rs:67-70 | the text test `dir/` is containment component by component, so a sibling sharing the name as a prefix is never hit |
| `Store.NoteStore.Replace` | src/store.rs:35-41 | the store becomes the notes inserted one after the other, each under its own path |
| `Store.NoteStore.RemoveDir` | src/store.rs:66-77 | the range scan removes exactly the notes inside the directory and counts them |
| `Store.NoteStore.ApplyBatch` | src/store.rs:55-82 | deletes, then directories, then upserts; the returned count is the number of notes under at least one directory after the path deletes, however the directories overlap; keys stay equal to note paths |
| `Store.NoteStore.Upsert` | src/store.rs:86-89 | one path is set, all others kept, keys stay equal to note paths |
| `Store.NoteStore.Delete` | src/store.rs:93-96 | one path is removed, all others kept |
| `Store.NoteStore.Get` | src/store.rs:104-107 | the note stored under the path, or none |
| `Store.BatchedAt` | src/store.rs:61-81 | what one batch does to one path: the last upsert of the path wins, otherwise a delete or a directory above removes it, otherwise it is untouched |
| `Vault.ScanFrom` | src/vault.rs:168-221 | the loop over the walk returns the readable Markdown files as notes, the failing ones as issues and those without a mapping as warnings, in walk order |
| `Vault.WalkComplete` | src/vault.rs:168-190 | the pruned walk yields an entry exactly when the path resolves to it without a dot-prefixed component |
| `Vault.ScanExact` | src/vault.rs:168-221 | a scan from a directory returns a note exactly when the vault holds it as a visible readable Markdown file at or below that directory |
| `Pruning.ScanIsWhatIsThere` | src/vault.rs:168-229 | a full scan returns a note exactly when a readable file is at its path, no component begins with a dot, and the last has something before a final `.md`; and the note carries the file's content |
| `Pruning.FailuresAreWhatFails` | src/vault.rs:168-229 | it reports exactly the unreadable files at such paths |
| `Pruning.WatcherLetsThrough` | src/watcher.rs:231-262 | the watcher's filters ask the same of a path, for a directory the dots alone |
| `Vault.FailureExact` | src/vault.rs:168-221 | the scan reports a path as failed exactly when the vault holds it as a visible Markdown file that cannot be read at or below the start |
| `Vault.WarningExact` | src/vault.rs:199-207 | it warns exactly about the visible Markdown files there whose frontmatter is not a mapping |
| `Vault.BlockedExactly` | src/watcher.rs:344-356 | a path leads nowhere in exactly two ways: below a file, or to nothing under a directory |
| `Vault.SubtreeScan` | src/vault.rs:168-221 | scanning a directory gives, in the same order, exactly the notes of the full scan that lie in it |
| `Watcher.MapEvent` | src/watcher.rs:58-115 | the actions an event stands for, with the file system probed at that moment |
| `Events.WriteKinds` | src/watcher.rs:66-74 | each of the four kinds of write event on a path stands for exactly the upsert of the note there, if it is one |
| `Events.AppearKinds` | src/watcher.rs:117-123 | a create or rename-to event stands for a walk of a directory and an upsert of a note file |
| `Events.VanishKinds` | src/watcher.rs:134-143 | a remove or rename-from event stands for the delete of the note, if the name can be one, and then of the directory |
| `Events.PairedRename` | src/watcher.rs:85-93 | a paired rename: the first path is gone, then the second has come |
| `Events.UnpairedRename` | src/watcher.rs:94-104 | an unpaired rename goes by whether the path exists |
| `Events.SilentEvents` | src/watcher.rs:58-65 | an overflow, and every other kind of event, stands for no action |
| `Events.SeveralPaths` | src/watcher.rs:66-84 | an event with several paths stands for what it would path by path |
| `Events.OutsideIsSilent` | src/watcher.rs:253-262 | a path outside the vault stands for nothing |
| `Watcher.FilterAgreesWithWalk` | src/watcher.rs:231-262 | the path filter of the watcher accepts a file exactly when the full scan deals with it, as a note or as an issue |
| `Watcher.Coalesce` | src/watcher.rs:191-229 | the last action per note and per directory survives, notes and directories tracked apart, each list sorted |
| `Watcher.CoalescesUnique` | src/watcher.rs:191-229 | the action stream determines the batch |
| `Watcher.EmptyExactly` | src/watcher.rs:321-328 | a window's batch is empty, and skipped, exactly when its events stand for no action |
| `Watcher.BuildIndexBatch` | src/watcher.rs:337-383 | readable upserts and walked notes are upserted, missing ones deleted, failing ones skipped; walked directories carry their own prefix delete |
| `Debounce.HandleWindow` | src/watcher.rs:299-334 | one window asks for a rescan exactly when an event signals an overflow, and casts one batch exactly when an event stands for an action |
| `Debounce.WindowRunsAsProtocol` | src/watcher.rs:276-335 | on a standing vault the steps of the protocol take a window to exactly that rescan and that message |
| `App.IndexWriter.HandleCast` | src/app.rs:509-540 | each message changes the store as the message's meaning says, and keys stay equal to note paths |
| `App.RunWalk` | src/app.rs:248-274 | the cast carries the full scan |
| `Convergence.HandledAt` | src/app.rs:509-540 | handling a message has, path by path, the effect ascribed to it while it was pending |
| `Convergence.CoalescedEffect` | src/watcher.rs:191-229 | the batch of a window may stand for its whole action stream in a pipeline that comes out right |
| `Changes.MoveSound` | src/watcher.rs:85-93 | the events of a rename are right about every path at or under either end, and a path they do not touch is unchanged |
| `Changes.EnterSound` | src/watcher.rs:117-123 | the event of a file or directory that comes in is right about everything it touches, and it touches everything that changed |
| `Changes.LeaveSound` | src/watcher.rs:134-143 | the same for a path that goes away, though a name ending in `.md` may have been a directory |
| `Safety.OperationSound` | src/watcher.rs:58-143 | whatever the vault operation, its own events are right about all they touch and touch all it changes |
| `Safety.StepInvariant` | src/watcher.rs:276-383 | every step of an orderly run keeps the invariant |
| `Safety.DisagreementIsCovered` | src/watcher.rs:276-383 | in every state an orderly run reaches, losses and overflows included, whether or not a loss gets a mark of its own, a path on which store and vault disagree is covered by an event, an action, a read, a batch, a rescan or a rebuild still pending |
| `Safety.LosslessIsCovered` | src/watcher.rs:276-383 | as long as no event is lost the same holds however the processes are scheduled |
| `Safety.QuietMeansExact` | src/app.rs:509-540 | once nothing is pending the store is the scan of the vault, on all paths but those of unreadable files |
| `Progress.PipelineStepIsProgress` | src/watcher.rs:282-334 | every step of the program uses up work, so no schedule of them goes on for ever while the vault stands still |
| `Progress.SomeStepIsPossible` | src/app.rs:509-540 | as long as anything is pending some orderly step is possible |
| `Progress.Converges` | src/watcher.rs:276-383 | from wherever an orderly run has got to, the program alone can bring the store to the scan of the vault |
| `Progress.EveryScheduleConverges` | src/watcher.rs:276-383 | from there, while the vault stands still, every schedule of the program's own steps comes to rest, with the store exactly the scan of the vault |
| `Races.RulesExactly` | src/watcher.rs:299-333 | a set of rules makes every run that comes to rest agree with the vault exactly when it holds all four |
| `Races.RescanBeforeBatchLosesNote` | src/watcher.rs:314-333 | a run in which the rescan overtakes its own window's batch and a note is lost for good |
| `Races.CastDuringRescanLosesNote` | src/app.rs:248-274 | a run in which a batch overtakes a rebuild already walked and a note is lost for good |
| `Races.FolderMetadataKeepsNote` | src/watcher.rs:66-74 | a run in which a directory's metadata event hides a delete and a note outlives its file |
| `Races.LossBehindMarkLosesNote` | src/watcher.rs:299-333 | a run in which an event queued behind the overflow mark, and then overtaken by an unmarked loss, removes a note the rescan has just found |
| `Windows.BatchEffect` | src/watcher.rs:337-383 | the exact effect of one batch on one path of a standing vault |
| `Windows.MissingIsDeleted` | src/watcher.rs:344-349 | a file to be read where nothing is found ends absent, whatever the store held |
| `Windows.FailedReadKeeps` | src/watcher.rs:350-356 | where a directory, a file above it or an unreadable file is found the entry stays, unless removed for other reasons |
| `Cuts.OneWindowAt` | src/watcher.rs:320-333 | the effect of one coalesced window on one path, from the last action on each subject alone |
| `Cuts.CutsAgreeExactly` | src/watcher.rs:191-229 | for every stream of actions and every path, readable, missing or failing: all ways of cutting it into windows agree on the path, whatever the store held, exactly unless a condition on the stream holds |
| `EventCuts.EventCutsAgreeExactly` | src/watcher.rs:276-333 | for every stream of paired events on a standing vault and every path: all ways of cutting it into windows agree exactly unless, on a readable note, the last action about it is a delete beside a surviving upsert, or, on a path where something cannot be read, a delete of it is taken back by an upsert |
| `EventCuts.TruthfulCutsAgree` | src/watcher.rs:191-229 | in particular they agree on a note when no delete of it or of a directory above it is the last word on its subject |
| `EventCuts.FalseDeleteMatters` | src/watcher.rs:117-143 | a create event of a directory and a stale remove event of a note in it, between which it matters whether a window ends |
| `Frontmatter.SplitFrontmatter` | src/vault.rs:292-312 | the search loop terminates and cuts at the first closing line after the opener's own line |
| `Frontmatter.NothingIsLost` | src/vault.rs:292-312 | the parts rebuild the source, cut at the first closing line, or the body is the whole source |
| `Frontmatter.UntouchedExactly` | src/vault.rs:292-312 | the source is left whole exactly when it has no opener or no closing line |
| `Frontmatter.SplitUndoesAssembleAtEnd` | src/vault.rs:300-305 | the same where the closing line ends the file |
| `Frontmatter.SplitUndoesAssemble` | src/vault.rs:292-312 | splitting returns the assembled yaml and body exactly when the yaml is not empty and holds no closing line |
| `Encoding.PercentDecode` | src/query.rs:246-272 | the decoding loop, with `+` as a space or not, failing on bad escapes and bad UTF-8 |
| `Codes.Utf8Exactly` | src/query.rs:271 | accepted are exactly the UTF-8 encodings of sequences of Unicode scalar values |
| `Codes.HexDigits` | src/query.rs:274-281 | both cases of a hexadecimal digit stand for their value, nothing else does |
| `Codes.EscapeReads` | src/query.rs:255-263 | an escape stands for one byte whichever case its digits have |
| `Codes.PlainReads` | src/query.rs:250-267 | without escapes a text stands for itself, but that in a query a plus sign is a space |
| `Encoding.DecodeUndoesEncode` | src/query.rs:246-272 | decoding undoes percent-encoding on every UTF-8 text |
| `Query.Parse` | src/query.rs:125-169 | the loop over the pairs stops at the first failing pair, with its error |
| `Codes.PairsCut` | src/query.rs:133-138 | a pair is cut at its first equals sign and its value is empty without one; a part that does not decode is refused by name |
| `Codes.EmptyQuery` | src/query.rs:103-113 | an empty query string asks for everything, recursively |
| `Codes.ControlsByName` | src/query.rs:140-143 | keys beginning with `__anw-` are controls, all others predicates |
| `Codes.ControlsSet` | src/query.rs:196-226 | each control sets its own field and refuses what it must, with its error |
| `Codes.LimitsSet` | src/query.rs:206-211 | a limit is a decimal number of at most 64 bits, a plus sign allowed |
| `Codes.LimitsRefused` | src/query.rs:206-211 | other texts are refused |
| `Codes.TrimStartExact` | src/query.rs:203-205 | slashes in front of a path are dropped and nothing else |
| `Codes.DescendingReads` | src/query.rs:229-244 | `:desc` is a suffix and means descending |
| `Codes.AscendingReads` | src/query.rs:229-244 | `:asc` is a suffix and means ascending |
| `Codes.PlainOrderReads` | src/query.rs:229-244 | any other text is a key whole, ascending |
| `Codes.PredicatesChecked` | src/query.rs:145-168 | a presence test needs a truth value and an expression must be valid; nothing else about a predicate is refused |
| `Codes.UnknownRefused` | src/query.rs:171-194 | a suffix that is none of the ten operators is refused by name |
| `Query.ParseConcat` | src/query.rs:125-169 | `a&b` fails exactly when `a` or `b` does, with the first error; otherwise predicates add up and later controls override |
| `QueryPrint.OperatorIsLast` | src/query.rs:171-194 | after any field, even one that ends in underscores, the appended operator is the one found |
| `QueryPrint.OperatorRejoins` | src/query.rs:171-194 | field and operator put back together are the key |
| `QueryPrint.ParseUndoesPrint` | src/query.rs:125-272 | printing a query and parsing it returns it |
| `QueryPrint.ParsesExactly` | src/query.rs:125-272 | the queries some query string stands for are exactly the printable ones |
| `Prints.DatePrints` | src/query.rs:535 | dates print as four, two and two digits that read as year, month and day |
| `Prints.InstantPrints` | src/query.rs:536-538 | datetimes print as the date, `T`, the time of day in UTC to the second, and `Z` |
| `Prints.ScalarsPrint` | src/query.rs:527-541 | null, booleans, strings, floats and integers print as in a query |
| `Prints.CompositesPrint` | src/query.rs:540 | lists and mappings are ordered among themselves by their debug text |
| `Values.InstantTextOrder` | src/query.rs:512-537 | the printed instants are ordered as the instants to the second, leap seconds included |
| `Values.LadderIsTextOrder` | src/query.rs:507-541 | off numbers, with four-digit years and whole seconds, the ladder is the order of the printed texts |
| `Values.FractionsAgreeExactly` | src/query.rs:511-541 | with fractions of a second the two orders agree exactly on pairs that differ to the second or not at all |
| `Values.UniformIsLawful` | src/query.rs:507-525 | on values of one kind comparing is a total preorder |
| `Values.LawfulExactly` | src/query.rs:507-541 | on any values, numbers within 2^53 and not NaN, it is one exactly when no value of another rung prints between two values of one rung that print out of order |
| `Values.MixedLawfulExactly` | src/query.rs:507-541 | on numbers mixed with values that print in their own order, exactly when no text prints between two numbers whose values and texts disagree |
| `Values.NumbersAndTextsCircle` | src/query.rs:507-525 | 9, 10 and "1z" go round in a circle |
| `Values.FractionsAndTextsCircle` | src/query.rs:507-541 | two instants within a second and their common text go round in a circle |
| `Values.FiveDigitYearsCircle` | src/query.rs:507-541 | a four-digit year, a five-digit year and a text go round in a circle |
| `Values.LargeIntegersCircle` | src/query.rs:703-714 | two integers beyond 2^53 and the float both round to go round in a circle |
| `Values.NaNCircle` | src/query.rs:518-520 | with NaN comparing is not transitive |
| `Evaluate.MatchingExact` | src/query.rs:543-604 | the match set holds exactly the stored paths that match, each once, in ascending order |
| `Operators.ScopeMeans` | src/query.rs:543-563 | the path control asks, component by component, for the note of that name and those inside, at any depth or directly |
| `Operators.WholeScope` | src/query.rs:543-547 | without a path, the whole vault or its top level |
| `Operators.DottedKeys` | src/query.rs:724-736 | a dotted key leads into nested mappings, one without dots names a frontmatter key |
| `Operators.EqualityMeans` | src/query.rs:617-642 | `f=v`: a scalar that prints as `v`, or a list that holds one |
| `Operators.NotIsComplement` | src/query.rs:569-576 | `f__not=v` is the complement of `f=v` |
| `Operators.ExistsMeans` | src/query.rs:569-575 | `f__exists=true` is every note with the key, `false` every other |
| `Operators.InIsUnion` | src/query.rs:578-581 | `f__in=a,b,…` is the union of `f=a`, `f=b`, …, whatever the blanks around the words |
| `Operators.AllIsIntersection` | src/query.rs:582-591 | `f__all=a,b,…` is the lists among their intersection |
| `Operators.PartsAreTrimmed` | src/query.rs:606-608 | blanks around a part of a list are dropped, blanks inside it kept |
| `Operators.PrefixMeans` | src/query.rs:596-599 | `f__prefix=v`: the strings that begin with `v` |
| `Operators.RegexMeans` | src/query.rs:592-595 | `f__regex=v`: the strings a valid expression accepts |
| `Operators.ParsePrintedInt` | src/query.rs:661 | an integer reads as itself exactly if it has at most 64 bits |
| `Operators.RangeOfInts` | src/query.rs:644-680 | the four range operators on integers go by value |
| `Operators.RangeOfDates` | src/query.rs:644-680 | on dates by the calendar |
| `Operators.RangeOfInstants` | src/query.rs:644-680 | on datetimes by the clock, fractions of a second included |
| `Operators.RangeOfFloats` | src/query.rs:644-680 | on floats by value; NaN is neither before nor after anything, so the operators that allow equality accept it |
| `Operators.RangeOfIntAndFloat` | src/query.rs:644-680 | an integer meets a needle that only reads as a float as a float |
| `Operators.RangeOfStrings` | src/query.rs:644-680 | on strings byte by byte, whatever the needle looks like |
| `Operators.RangeOfOthers` | src/query.rs:644-680 | nothing else lies in any range |
| `Operators.ResultsCarryNotes` | src/query.rs:316-340 | a result carries what the store holds for its path |
| `Evaluate.Execute` | src/query.rs:316-350 | the results are the first `limit` matches; `total` counts all of them; `truncated` holds exactly when `total` exceeds the limit |
| `Evaluate.ConcatIntersects` | src/query.rs:565-567 | without controls the match set of `a&b` is the intersection of the two |
| `Merge.CheckKind` | src/query.rs:414-435 | the guard passes exactly when every fragment has the key and all values print alike; otherwise the error lists the missing and the distinct ones |
| `Merge.ExecuteMerge` | src/query.rs:385-450 | guard on the full match set, then order, then limit, then assembly |
| `Merge.FragmentsTotallyOrdered` | src/query.rs:437-445 | where comparing the values is lawful the merge comparator is a strict total order, in both directions |
| `Merge.OrderedExactly` | src/query.rs:437-445 | for either direction, it is one on all fragments with distinct paths and these order values exactly when comparing the values is lawful |
| `Merge.DocumentIsUnique` | src/query.rs:437-449 | then any sorted arrangement gives the same document, whatever the sorting algorithm |
| `Merge.LimitKeepsTheLeast` | src/query.rs:437-449 | then the limit keeps exactly the least fragments |
| `Merge.NothingIsSorted` | src/query.rs:490-525 | with 9, 10 and "1z" among the order values no arrangement is sorted |
| `Document.DocumentInOrder` | src/query.rs:437-449 | in a merged document a note with the order key stands before one without, in either direction; the lesser before the greater, or the greater first if descending; then by path |
| `Document.IntsInOrder` | src/query.rs:507-525 | integers are ordered by value |
| `Document.FloatsInOrder` | src/query.rs:507-525 | floats by value |
| `Document.IntAndFloatInOrder` | src/query.rs:507-525 | integers within 2^53 and floats by value |
| `Document.DatesInOrder` | src/query.rs:507-525 | dates by the calendar |
| `Document.InstantsInOrder` | src/query.rs:507-525 | datetimes by the clock |
| `Document.TextsInOrder` | src/query.rs:507-525 | all else by the printed texts, byte by byte |
| `Document.SmallDocuments` | src/query.rs:455-461 | no fragments give no text; one gives its marker line and its body |
| `Document.DocumentsJoin` | src/query.rs:455-461 | a list of fragments gives the documents of its two halves, a blank line between |
| `Document.PartsStand` | src/query.rs:455-461 | each fragment stands at its place in the document, marker and body verbatim |
| `Document.DocumentLength` | src/query.rs:455-461 | and the document is exactly as long as its parts and the blank lines |
| `Document.FragmentsAreNotes` | src/query.rs:390-412 | each kept fragment carries path, body and order value of a matched note |
| `Document.NothingMerged` | src/query.rs:385-450 | a query that matches nothing merges to the empty text |
| `Document.OneMerged` | src/query.rs:385-450 | a query that matches one note merges to its marker line and body |
| `Document.MissingNames` | src/query.rs:414-435 | the guard names as missing exactly the notes without the key |
| `Document.GroupNames` | src/query.rs:414-435 | it names under a kind exactly the notes whose value prints so |
| `Document.TwoKindsMessage` | src/query.rs:466-485 | its message for two kinds, least first, each with its notes |
| `Document.MissingMessage` | src/query.rs:466-485 | its message for notes without the key |
| `Merge.GuardMeaning` | src/query.rs:414-435 | a merge succeeds exactly when there is no kind key or every matched note has it with one canonical value |
| `Merge.GuardIgnoresLimitAndOrder` | src/query.rs:414-449 | limit and order have no say in that |
| `Merge.EqualityIsCanonical` | src/query.rs:617-642 | on scalars, query equality is equality of canonical texts |
| `Merge.GuardMakesPredicateRedundant` | src/query.rs:414-449 | when the guard passes on scalars with common text `c`, adding `key=c` leaves the merge unchanged |
| `Merge.MergeAgreesWithJson` | src/query.rs:316-450 | without order or kind key the fragments of the merge are those of the JSON results, in the same order, cut at the same limit |
| `Listing.ListFolder` | src/http.rs:334-399 | the grouping loops and the sort by name give the listing; none where an unknown folder is asked for |
| `Listing.ListingExact` | src/http.rs:334-399 | a listing holds an entry for each note directly in the folder and for each subfolder with notes in it, none twice, sorted; it is missing exactly when the folder holds no note |
| `Listing.ListingAscends` | src/http.rs:399 | the names ascend byte by byte |
| `Sorting.SortStable` | src/http.rs:399 | sorting keeps items that compare equal in their order |
| `Listing.VisitsEachOnce` | src/http.rs:341-399 | following the entries from a folder visits each note in it exactly once and nothing else, and terminates |
| `Listing.RootVisitsTheStore` | src/http.rs:341-399 | from the root that is every stored note exactly once |
| `Listing.FilesAreQueryResults` | src/http.rs:341-373 | the file entries are the non-recursive query results for the folder, a note named like the folder apart |
| `Listing.UnknownFolder` | src/http.rs:378-380 | a folder is unknown exactly when the recursive query finds at most a note of that very name |
| `Listing.DirTimeIsLatestResult` | src/http.rs:359-369 | a directory entry's time is the latest among the recursive query results under it |
| `Listing.DirTimeIsLatestEntry` | src/http.rs:359-369 | and the latest in the subfolder's own listing |
| `Listing.ResolvesExactly` | src/http.rs:420-472 | requests resolve to exactly the UTF-8 paths without empty, `.` or `..` segments, and each of those by its own encoding |
| `Listing.RefusedExactly` | src/http.rs:420-451 | a request is refused exactly for broken encoding, for naming nothing, and for an empty component or one or two dots as one |
| `Listing.ListedFoldersResolve` | src/http.rs:420-472 | the encoded path of every listed entry resolves back to it |
| `Doctor.DetectTypeDrift` | src/doctor.rs:112-144 | exactly the keys two notes give different shapes, each shape with its number of notes and its first three paths in scan order |
| `Doctor.ShapesMean` | src/doctor.rs:154-164 | the seven shapes: integers and floats share one, so do dates and datetimes, no others do |
| `Doctor.ReportedShapes` | src/doctor.rs:112-144 | each reported shape has the number of its notes and the first of their paths, three at most |
| `Doctor.DriftReportExact` | src/doctor.rs:112-144 | a key is reported exactly when it drifts, and the counts of its shapes add up to the notes that have it |
| `Doctor.DetectPathCollisions` | src/doctor.rs:90-103 | exactly the repeated paths with how often each occurs |
| `Doctor.CollisionsAreTheLoss` | src/doctor.rs:90-103 | the reported surplus is exactly the notes `replace` does not keep; no collision is reported exactly when it keeps all |

## Left out

- Serving HTTP, routing, response building, ETags, telemetry, the command line, `oneshot` and the rendering of the doctor report: plumbing, or thin composition over functions modelled here.
- Supervision, mailbox loss in a crash, restart counters and health flags: the runtime's, or trivial state.
- YAML, date and float parsing, the regular expression engine and the debug printer: unconstrained functions of `Query.Env`, and the text a float prints as is carried with it. BLAKE3 and file metadata are part of a file's opaque content.
- The JSON projection of results and time formatting in listings: a listing carries the raw time.
- `Evaluate.CommaList`: trims ASCII blanks only, where the original trims all Unicode white space.
- A datetime's UTC offset: every use in the modelled code converts to UTC first.
- `Protocol.VaultOp`: raises the paired inotify events only, so unpaired macOS renames and their existence probe are outside the convergence results.
- `Convergence.Invariant`: claims nothing of unreadable files, where the code keeps what it had.
- `Values.LawfulExactly`: asks for numbers within 2^53 and without NaN; beyond that there are the counterexamples only.
- Locks: each store operation is one atomic step, as the write lock makes it.
- Real time: a window may close after any number of events.
