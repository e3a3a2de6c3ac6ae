/** From file-system events to index batches. */
module Watcher {
  import opened Text
  import opened Ordered
  import opened Paths
  import opened Notes
  import opened Vault

  // ---- Events -------------------------------------------------------------------

  /** The event kinds `classify` tells apart. */
  datatype EventKind =
    | AccessCloseWrite | AccessOther
    | Create | Remove
    | ModifyData | ModifyMetadata | ModifyAny | ModifyOther
    | RenameTo | RenameFrom | RenameBoth | RenameAny | RenameOther
    | AnyKind | OtherKind

  /** A native event.  Paths are absolute, as component lists; `rescan` is the
      flag that signals a queue overflow. */
  datatype Event = Event(kind: EventKind, paths: seq<seq<string>>, rescan: bool)

  /** What arrives on the channel. */
  datatype Notify = Delivered(event: Event) | NotifyError

  datatype EventAction = Modify | Appear | Vanish | Rename | RenameUnpaired

  function Classify(kind: EventKind): Option<EventAction> {
    match kind
    case ModifyData | ModifyMetadata | ModifyAny | AccessCloseWrite => Some(Modify)
    case Create | RenameTo => Some(Appear)
    case RenameFrom | Remove => Some(Vanish)
    case RenameBoth => Some(Rename)
    case RenameAny | RenameOther => Some(RenameUnpaired)
    case _ => None
  }

  predicate IsOverflow(event: Event) {
    event.rescan
  }

  // ---- Actions ------------------------------------------------------------------

  datatype WatchAction =
    | Upsert(path: string)
    | Delete(path: string)
    | UpsertTree(dir: string)
    | DeleteTree(dir: string)

  function Relative(root: seq<string>, abs: seq<string>): Option<string> {
    if root <= abs && NoDots(abs[|root|..]) then Some(PathOf(abs[|root|..])) else None
  }

  function NoteRelative(root: seq<string>, abs: seq<string>): Option<string> {
    if abs == [] || Extension(abs[|abs| - 1]) != Some("md") then None else Relative(root, abs)
  }

  function TreeRelative(root: seq<string>, abs: seq<string>): Option<string> {
    match Relative(root, abs)
    case Some(rel) => if rel == [] then None else Some(rel)
    case None => None
  }

  /** `abs.is_dir()`; a path outside the vault is never asked about usefully. */
  predicate IsDirAt(vault: Node, root: seq<string>, abs: seq<string>) {
    && root <= abs
    && var found := Resolve(vault, abs[|root|..]);
    found.Found? && found.node.Dir?
  }

  predicate ExistsAt(vault: Node, root: seq<string>, abs: seq<string>) {
    root <= abs && Resolve(vault, abs[|root|..]).Found?
  }

  function Modified(root: seq<string>): seq<string> -> seq<WatchAction> {
    (abs: seq<string>) =>
      match NoteRelative(root, abs)
      case Some(rel) => [Upsert(rel)]
      case None => []
  }

  function Appeared(vault: Node, root: seq<string>): seq<string> -> seq<WatchAction> {
    (abs: seq<string>) =>
      if IsDirAt(vault, root, abs) then
        match TreeRelative(root, abs)
        case Some(rel) => [UpsertTree(rel)]
        case None => []
      else Modified(root)(abs)
  }

  function Vanished(root: seq<string>): seq<string> -> seq<WatchAction> {
    (abs: seq<string>) =>
      (match NoteRelative(root, abs)
       case Some(rel) => [Delete(rel)]
       case None => [])
      + (match TreeRelative(root, abs)
         case Some(rel) => [DeleteTree(rel)]
         case None => [])
  }

  function Unpaired(vault: Node, root: seq<string>): seq<string> -> seq<WatchAction> {
    (abs: seq<string>) =>
      if ExistsAt(vault, root, abs) then Appeared(vault, root)(abs) else Vanished(root)(abs)
  }

  /** The actions an event stands for, the file system being probed now. */
  function ActionsOf(vault: Node, root: seq<string>, event: Event): seq<WatchAction> {
    if IsOverflow(event) then []
    else
      match Classify(event.kind)
      case Some(Modify) => Collect(event.paths, Modified(root))
      case Some(Appear) => Collect(event.paths, Appeared(vault, root))
      case Some(Vanish) => Collect(event.paths, Vanished(root))
      case Some(Rename) =>
        (if |event.paths| > 0 then Vanished(root)(event.paths[0]) else [])
        + (if |event.paths| > 1 then Appeared(vault, root)(event.paths[1]) else [])
      case Some(RenameUnpaired) => Collect(event.paths, Unpaired(vault, root))
      case None => []
  }

  method MapEvent(vault: Node, root: seq<string>, event: Event) returns (actions: seq<WatchAction>)
    ensures actions == ActionsOf(vault, root, event)
  {
    actions := [];
    if IsOverflow(event) { return; }
    match Classify(event.kind) {
      case Some(Modify) => actions := ForEachPath(event.paths, Modified(root));
      case Some(Appear) => actions := ForEachPath(event.paths, Appeared(vault, root));
      case Some(Vanish) => actions := ForEachPath(event.paths, Vanished(root));
      case Some(Rename) =>
        var gone := if |event.paths| > 0 then Vanished(root)(event.paths[0]) else [];
        var came := if |event.paths| > 1 then Appeared(vault, root)(event.paths[1]) else [];
        actions := gone + came;
      case Some(RenameUnpaired) => actions := ForEachPath(event.paths, Unpaired(vault, root));
      case None =>
    }
  }

  method ForEachPath(paths: seq<seq<string>>, f: seq<string> -> seq<WatchAction>) returns (actions: seq<WatchAction>)
    ensures actions == Collect(paths, f)
  {
    actions := [];
    for i := 0 to |paths|
      invariant actions == Collect(paths[..i], f)
    {
      assert paths[..i + 1] == paths[..i] + [paths[i]];
      CollectConcat(paths[..i], [paths[i]], f);
      CollectOne(paths[i], f);
      actions := actions + f(paths[i]);
    }
    assert paths[..|paths|] == paths;
  }

  /** The full scan deals with this file: as a note, or as one that failed. */
  predicate DealtWith(vault: Node, path: string, state: FileState) {
    match state
    case Readable(c) => NoteAt(path, c) in ScanNotes(vault, [])
    case Unreadable => path in ScanFailures(vault, [])
  }

  /** The watcher's path filter accepts exactly the files the pruned walk
      reads, whether or not they can be read. */
  lemma FilterAgreesWithWalk(root: seq<string>, vault: Node, segs: seq<string>, state: FileState)
    requires vault.Dir? && WellFormed(vault)
    requires segs != [] && Resolve(vault, segs) == Found(File(state))
    ensures NoteRelative(root, root + segs) ==
            if DealtWith(vault, PathOf(segs), state) then Some(PathOf(segs)) else None
  {
    ResolveNamesValid(vault, segs);
    NoteRelativeIs(root, segs);
    SegmentsOfPath(segs);
    if state.Readable? {
      ScanExact(vault, [], NoteAt(PathOf(segs), state.content));
    } else {
      FailureExact(vault, [], PathOf(segs));
    }
  }

  /** The filter on paths as components is the filter on paths as text. */
  lemma NoteRelativeIs(root: seq<string>, segs: seq<string>)
    requires segs != [] && ValidNames(segs)
    ensures NoteRelative(root, root + segs)
         == if Visible(PathOf(segs)) && IsMarkdown(PathOf(segs)) then Some(PathOf(segs)) else None
  {
    SegmentsOfPath(segs);
    assert (root + segs)[|root|..] == segs;
    assert (root + segs)[|root + segs| - 1] == segs[|segs| - 1];
  }

  // ---- Coalescing ---------------------------------------------------------------

  datatype WatchBatch = WatchBatch(
    upserts: seq<string>, deletes: seq<string>,
    upsertTrees: seq<string>, deleteTrees: seq<string>)

  datatype Last = LastUpsert | LastDelete

  /** The last action that names the note `path`. */
  function LastNote(actions: seq<WatchAction>, path: string): Option<Last> {
    if actions == [] then None
    else
      var a := actions[|actions| - 1];
      if a == Upsert(path) then Some(LastUpsert)
      else if a == Delete(path) then Some(LastDelete)
      else LastNote(actions[..|actions| - 1], path)
  }

  /** The last action that names the directory `dir`. */
  function LastTree(actions: seq<WatchAction>, dir: string): Option<Last> {
    if actions == [] then None
    else
      var a := actions[|actions| - 1];
      if a == UpsertTree(dir) then Some(LastUpsert)
      else if a == DeleteTree(dir) then Some(LastDelete)
      else LastTree(actions[..|actions| - 1], dir)
  }

  /** One sorted batch in which the last action per note and per directory
      survives, notes and directories being tracked apart. */
  ghost predicate Coalesces(actions: seq<WatchAction>, batch: WatchBatch) {
    && StrictlyAscending(batch.upserts) && StrictlyAscending(batch.deletes)
    && StrictlyAscending(batch.upsertTrees) && StrictlyAscending(batch.deleteTrees)
    && (forall p :: p in batch.upserts <==> LastNote(actions, p) == Some(LastUpsert))
    && (forall p :: p in batch.deletes <==> LastNote(actions, p) == Some(LastDelete))
    && (forall d :: d in batch.upsertTrees <==> LastTree(actions, d) == Some(LastUpsert))
    && (forall d :: d in batch.deleteTrees <==> LastTree(actions, d) == Some(LastDelete))
  }

  /** The batch is determined by the actions. */
  lemma CoalescesUnique(actions: seq<WatchAction>, a: WatchBatch, b: WatchBatch)
    requires Coalesces(actions, a) && Coalesces(actions, b)
    ensures a == b
  {
    AscendingUnique(a.upserts, b.upserts);
    AscendingUnique(a.deletes, b.deletes);
    AscendingUnique(a.upsertTrees, b.upsertTrees);
    AscendingUnique(a.deleteTrees, b.deleteTrees);
  }

  function NotesLast(actions: seq<WatchAction>, last: Last): (names: seq<string>)
    ensures StrictlyAscending(names)
  {
    var s := set a | a in actions && (a.Upsert? || a.Delete?)
                     && LastNote(actions, a.path) == Some(last) :: a.path;
    AscendingSorted(s);
    Ascending(s)
  }

  function TreesLast(actions: seq<WatchAction>, last: Last): (names: seq<string>)
    ensures StrictlyAscending(names)
  {
    var s := set a | a in actions && (a.UpsertTree? || a.DeleteTree?)
                     && LastTree(actions, a.dir) == Some(last) :: a.dir;
    AscendingSorted(s);
    Ascending(s)
  }

  function Coalesced(actions: seq<WatchAction>): WatchBatch {
    WatchBatch(NotesLast(actions, LastUpsert), NotesLast(actions, LastDelete),
               TreesLast(actions, LastUpsert), TreesLast(actions, LastDelete))
  }

  lemma {:induction false} LastIsNamed(actions: seq<WatchAction>, name: string)
    ensures LastNote(actions, name).Some? ==> Upsert(name) in actions || Delete(name) in actions
    ensures LastTree(actions, name).Some? ==> UpsertTree(name) in actions || DeleteTree(name) in actions
    decreases |actions|
  {
    if actions != [] { LastIsNamed(actions[..|actions| - 1], name); }
  }

  lemma CoalescedCoalesces(actions: seq<WatchAction>)
    ensures Coalesces(actions, Coalesced(actions))
  {
    forall name ensures
      && (LastNote(actions, name).Some? ==> Upsert(name) in actions || Delete(name) in actions)
      && (LastTree(actions, name).Some? ==> UpsertTree(name) in actions || DeleteTree(name) in actions)
    {
      LastIsNamed(actions, name);
    }
  }

  lemma LastActionSurvives(actions: seq<WatchAction>)
    requires actions != []
    ensures var a := actions[|actions| - 1];
            && (a.Upsert? ==> LastNote(actions, a.path) == Some(LastUpsert))
            && (a.Delete? ==> LastNote(actions, a.path) == Some(LastDelete))
            && (a.UpsertTree? ==> LastTree(actions, a.dir) == Some(LastUpsert))
            && (a.DeleteTree? ==> LastTree(actions, a.dir) == Some(LastDelete))
  {
  }

  lemma FirstName(names: seq<string>)
    ensures names == [] || names[0] in names
  {
  }

  /** A window's batch is empty exactly when no event stands for an action. */
  lemma EmptyExactly(actions: seq<WatchAction>, b: WatchBatch)
    requires Coalesces(actions, b)
    ensures b == WatchBatch([], [], [], []) <==> actions == []
  {
    if actions != [] {
      LastActionSurvives(actions);
    } else {
      assert forall name :: LastNote(actions, name).None? && LastTree(actions, name).None?;
      FirstName(b.upserts);
      FirstName(b.deletes);
      FirstName(b.upsertTrees);
      FirstName(b.deleteTrees);
    }
  }

  /** The two lists a `BTreeMap<String, Last>` is drained into. */
  method Drain(last: map<string, Last>) returns (ups: seq<string>, dels: seq<string>)
    ensures StrictlyAscending(ups) && StrictlyAscending(dels)
    ensures forall k :: k in ups <==> k in last && last[k] == LastUpsert
    ensures forall k :: k in dels <==> k in last && last[k] == LastDelete
  {
    var keys := Ascending(last.Keys);
    ghost var up, del := set k | k in last && last[k] == LastUpsert, set k | k in last && last[k] == LastDelete;
    ups, dels := [], [];
    for i := 0 to |keys|
      invariant ups == Among(keys[..i], up) && dels == Among(keys[..i], del)
    {
      var k := keys[i];
      AmongStep(keys, up, i);
      AmongStep(keys, del, i);
      if last[k] == LastUpsert {
        ups := ups + [k];
      } else {
        dels := dels + [k];
      }
    }
    assert keys[..|keys|] == keys;
    AscendingSorted(last.Keys);
    AmongExact(keys, up);
    AmongExact(keys, del);
  }

  method Coalesce(actions: seq<WatchAction>) returns (batch: WatchBatch)
    ensures Coalesces(actions, batch)
  {
    var notes: map<string, Last>, trees: map<string, Last> := map[], map[];
    for i := 0 to |actions|
      invariant forall p :: LastNote(actions[..i], p) == if p in notes then Some(notes[p]) else None
      invariant forall d :: LastTree(actions[..i], d) == if d in trees then Some(trees[d]) else None
    {
      assert actions[..i + 1][..i] == actions[..i];
      match actions[i] {
        case Upsert(p) => notes := notes[p := LastUpsert];
        case Delete(p) => notes := notes[p := LastDelete];
        case UpsertTree(d) => trees := trees[d := LastUpsert];
        case DeleteTree(d) => trees := trees[d := LastDelete];
      }
    }
    assert actions[..|actions|] == actions;
    var upserts, deletes := Drain(notes);
    var upsertTrees, deleteTrees := Drain(trees);
    batch := WatchBatch(upserts, deletes, upsertTrees, deleteTrees);
  }

  // ---- Reading ------------------------------------------------------------------

  datatype ScanError = IoNotFound | OtherFailure

  /** `scan_one`: only a missing file is reported as not found; a directory, a
      path through a file, or an unparseable file fails in some other way. */
  function ScanOne(vault: Node, path: string): Result<Note, ScanError> {
    match Resolve(vault, Segments(path))
    case Found(File(Readable(c))) => Ok(NoteAt(path, c))
    case NotFound => Err(IoNotFound)
    case _ => Err(OtherFailure)
  }

  datatype IndexBatch = IndexBatch(upserts: seq<Note>, deletes: seq<string>, deletePrefixes: seq<string>)

  function ReadNote(vault: Node): string -> seq<Note> {
    (path: string) =>
      match ScanOne(vault, path)
      case Ok(n) => [n]
      case Err(_) => []
  }

  function MissingNote(vault: Node): string -> seq<string> {
    (path: string) => if ScanOne(vault, path) == Err(IoNotFound) then [path] else []
  }

  function WalkedNotes(vault: Node): string -> seq<Note> {
    (dir: string) => ScanNotes(vault, Segments(dir))
  }

  /** The index batch a watch batch turns into when the vault stands still. */
  function Built(vault: Node, batch: WatchBatch): IndexBatch {
    IndexBatch(
      Collect(batch.upserts, ReadNote(vault)) + Collect(batch.upsertTrees, WalkedNotes(vault)),
      batch.deletes + Collect(batch.upserts, MissingNote(vault)),
      batch.deleteTrees + batch.upsertTrees)
  }

  method ReadAll(vault: Node, paths: seq<string>) returns (notes: seq<Note>, missing: seq<string>)
    ensures notes == Collect(paths, ReadNote(vault))
    ensures missing == Collect(paths, MissingNote(vault))
  {
    notes, missing := [], [];
    for i := 0 to |paths|
      invariant notes == Collect(paths[..i], ReadNote(vault))
      invariant missing == Collect(paths[..i], MissingNote(vault))
    {
      var rel := paths[i];
      assert paths[..i + 1] == paths[..i] + [rel];
      CollectConcat(paths[..i], [rel], ReadNote(vault));
      CollectConcat(paths[..i], [rel], MissingNote(vault));
      CollectOne(rel, ReadNote(vault));
      CollectOne(rel, MissingNote(vault));
      match ScanOne(vault, rel) {
        case Ok(note) => notes := notes + [note];
        case Err(IoNotFound) => missing := missing + [rel];
        case Err(OtherFailure) =>
      }
    }
    assert paths[..|paths|] == paths;
  }

  method WalkDir(vault: Node, dir: string) returns (notes: seq<Note>)
    ensures notes == WalkedNotes(vault)(dir)
  {
    var found, _, _ := ScanFrom(vault, Segments(dir));
    notes := found;
  }

  method WalkAll(vault: Node, dirs: seq<string>) returns (notes: seq<Note>)
    ensures notes == Collect(dirs, WalkedNotes(vault))
  {
    notes := [];
    for i := 0 to |dirs|
      invariant notes == Collect(dirs[..i], WalkedNotes(vault))
    {
      assert dirs[..i + 1] == dirs[..i] + [dirs[i]];
      CollectConcat(dirs[..i], [dirs[i]], WalkedNotes(vault));
      CollectOne(dirs[i], WalkedNotes(vault));
      var found := WalkDir(vault, dirs[i]);
      notes := notes + found;
    }
    assert dirs[..|dirs|] == dirs;
  }

  method BuildIndexBatch(vault: Node, batch: WatchBatch) returns (r: IndexBatch)
    ensures r == Built(vault, batch)
  {
    var upserts, missing := ReadAll(vault, batch.upserts);
    var walked := WalkAll(vault, batch.upsertTrees);
    r := IndexBatch(upserts + walked, batch.deletes + missing, batch.deleteTrees + batch.upsertTrees);
  }
}
