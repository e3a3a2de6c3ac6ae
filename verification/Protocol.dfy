/** The index-maintenance protocol as a transition system.

    A state holds the vault, the undelivered native events, the debouncer in
    the middle of whatever it is doing, the scanner, the writer's mailbox and
    the store.  Every read of the vault is a step of its own, so files may
    change between an event's delivery, its classification, the reads it causes
    and the write that follows. */
module Protocol {
  import opened Text
  import opened Paths
  import opened Notes
  import opened Store
  import opened Vault
  import opened Watcher
  import opened App

  // ---- The vault as seen path by path -----------------------------------------------

  datatype View = Missing | Folder | Regular(state: FileState)

  function ViewAt(vault: Node, path: string): View {
    match Resolve(vault, Segments(path))
    case Found(Dir(_)) => Folder
    case Found(File(state)) => Regular(state)
    case _ => Missing
  }

  /** What the index should know about a path. */
  datatype Status = Holds(note: Note) | Broken | Nothing

  function StatusAt(vault: Node, path: string): Status {
    if !Visible(path) || !IsMarkdown(path) then Nothing
    else
      match ViewAt(vault, path)
      case Regular(Readable(c)) => Holds(NoteAt(path, c))
      case Regular(Unreadable) => Broken
      case _ => Nothing
  }

  /** The store and the vault agree on a path.  Nothing is claimed of a file
      that cannot be read: the code keeps whatever it had. */
  predicate Agrees(vault: Node, store: NoteMap, path: string) {
    match StatusAt(vault, path)
    case Holds(n) => path in store && store[path] == n
    case Broken => true
    case Nothing => path !in store
  }

  // ---- Vault changes and the events they raise -------------------------------------------

  datatype VaultOp =
    | WriteFile(path: string, kind: EventKind)
    | Enter(path: string, kind: EventKind)
    | Leave(path: string, kind: EventKind)
    | Move(from: string, to: string)
    | TouchDir(path: string)

  predicate EmptyFolder(vault: Node, dir: string) {
    var found := Resolve(vault, Segments(dir));
    found.Found? && found.node.Dir? && found.node.entries == []
  }

  /** A rename or a move may replace a file by a file, or an empty directory
      by a directory, or land on a free name. */
  predicate MayReplace(vault: Node, path: string, incoming: View) {
    match ViewAt(vault, path)
    case Missing => true
    case Folder => incoming.Folder? && EmptyFolder(vault, path)
    case Regular(_) => incoming.Regular?
  }

  predicate Inside(path: string, dir: string) {
    path == dir || Under(path, dir)
  }

  /** The path that `path`, at or inside `to`, had when `to` was still `from`. */
  function Relocated(path: string, to: string, from: string): string {
    if |to| <= |path| then from + path[|to|..] else path
  }

  /** What each operation does to the vault, path by path. */
  ghost predicate OpChanges(before: Node, op: VaultOp, after: Node) {
    match op
    case WriteFile(p, kind) =>
      && ValidPath(p)
      && kind in {ModifyData, ModifyMetadata, ModifyAny, AccessCloseWrite}
      && ViewAt(before, p).Regular? && ViewAt(after, p).Regular?
      && forall q | q != p :: ViewAt(after, q) == ViewAt(before, q)
    case Enter(p, kind) =>
      && ValidPath(p)
      && kind in {Create, RenameTo}
      && !ViewAt(after, p).Missing? && MayReplace(before, p, ViewAt(after, p))
      && forall q | !Inside(q, p) :: ViewAt(after, q) == ViewAt(before, q)
    case Leave(p, kind) =>
      && ValidPath(p)
      && kind in {Remove, RenameFrom}
      && !ViewAt(before, p).Missing?
      && forall q :: ViewAt(after, q) == if Inside(q, p) then Missing else ViewAt(before, q)
    case Move(f, t) =>
      && ValidPath(f) && ValidPath(t)
      && !Inside(t, f)
      && !ViewAt(before, f).Missing? && MayReplace(before, t, ViewAt(before, f))
      && forall q :: ViewAt(after, q) ==
                     if Inside(q, f) then Missing
                     else if Inside(q, t) then ViewAt(before, Relocated(q, t, f))
                     else ViewAt(before, q)
    case TouchDir(p) =>
      && ValidPath(p)
      && ViewAt(before, p).Folder? && after == before
  }

  function Absolute(root: seq<string>, path: string): seq<string> {
    root + Segments(path)
  }

  function Raise(kind: EventKind, paths: seq<seq<string>>): Notify {
    Delivered(Event(kind, paths, false))
  }

  /** The native events in the order they are queued.  A rename inside the
      vault is reported from each side and then once as a pair. */
  function EventsOf(root: seq<string>, op: VaultOp): seq<Notify> {
    match op
    case WriteFile(p, kind) => [Raise(kind, [Absolute(root, p)])]
    case Enter(p, kind) => [Raise(kind, [Absolute(root, p)])]
    case Leave(p, kind) => [Raise(kind, [Absolute(root, p)])]
    case Move(f, t) =>
      [Raise(RenameFrom, [Absolute(root, f)]), Raise(RenameTo, [Absolute(root, t)]),
       Raise(RenameBoth, [Absolute(root, f), Absolute(root, t)])]
    case TouchDir(p) => [Raise(ModifyMetadata, [Absolute(root, p)])]
  }

  const OVERFLOW := Delivered(Event(OtherKind, [], true))

  // ---- States ---------------------------------------------------------------------------------

  /** Where `run_debouncer` stands.  A directory walk in progress keeps, per
      path, what it has observed there last. */
  datatype Debouncer =
    | Window(events: seq<Notify>)
    | Classifying(todo: seq<Notify>, actions: seq<WatchAction>, overflow: bool)
    | Reading(paths: seq<string>, trees: seq<string>, prefixes: seq<string>,
              upserts: seq<Note>, deletes: seq<string>, overflow: bool)
    | Walking(dir: string, seen: NoteMap, trees: seq<string>, prefixes: seq<string>,
              upserts: seq<Note>, deletes: seq<string>, overflow: bool)

  datatype State = State(
    vault: Node,
    queue: seq<Notify>,
    debouncer: Debouncer,
    rescans: nat,
    walk: Option<NoteMap>,
    mailbox: seq<Message>,
    store: NoteMap)

  predicate OverflowSeen(d: Debouncer) {
    !d.Window? && d.overflow
  }

  /** The window that carried an overflow has been coalesced, its batch has
      not been cast. */
  predicate BuildingOverflowBatch(d: Debouncer) {
    (d.Reading? || d.Walking?) && d.overflow
  }

  predicate Quiescent(s: State) {
    s.queue == [] && s.debouncer == Window([]) && s.rescans == 0 && s.walk.None? && s.mailbox == []
  }

  /** After the startup walk: its result is in the mailbox and the watcher is bound. */
  predicate Initial(s: State) {
    && s.vault.Dir? && WellFormed(s.vault)
    && s == State(s.vault, [], Window([]), 0, None, [Rebuild(ScanNotes(s.vault, []))], map[])
  }

  function Scanned(vault: Node, start: seq<string>): NoteMap {
    PutAll(map[], ScanNotes(vault, start))
  }

  function Observed(vault: Node, seen: NoteMap, path: string): NoteMap {
    match IndexedNote(vault, path)
    case Some(n) => seen[path := n]
    case None => seen - {path}
  }

  predicate SignalsOverflow(n: Notify) {
    n.Delivered? && IsOverflow(n.event)
  }

  predicate Overflowed(events: seq<Notify>) {
    exists n <- events :: SignalsOverflow(n)
  }

  // ---- Steps ------------------------------------------------------------------------------------

  datatype Step =
    | Change(op: VaultOp, after: Node)
    | Lose(after: Node, marked: bool)
    | Noise(event: Notify)
    | Deliver
    | CloseWindow
    | MapOne
    | CoalesceWindow(batch: WatchBatch)
    | ReadOne
    | StartWalk
    | WalkAgain(path: string)
    | FinishWalk(found: seq<Note>)
    | CastBatch
    | StartRescan
    | RescanAgain(path: string)
    | FinishRescan(found: seq<Note>)
    | Handle

  predicate Meaningless(n: Notify) {
    n.NotifyError? || (!n.event.rescan && n.event.kind in {AccessOther, ModifyOther, AnyKind, OtherKind})
  }

  ghost predicate Enabled(s: State, step: Step) {
    match step
    case Change(op, after) => after.Dir? && WellFormed(after) && OpChanges(s.vault, op, after)
    case Lose(after, marked) => after.Dir? && WellFormed(after) && (marked || Overflowed(s.queue))
    case Noise(n) => Meaningless(n)
    case Deliver => s.debouncer.Window? && s.queue != []
    case CloseWindow => s.debouncer.Window? && s.debouncer.events != []
    case MapOne => s.debouncer.Classifying? && s.debouncer.todo != []
    case CoalesceWindow(batch) =>
      s.debouncer.Classifying? && s.debouncer.todo == [] && Coalesces(s.debouncer.actions, batch)
    case ReadOne => s.debouncer.Reading? && s.debouncer.paths != []
    case StartWalk => s.debouncer.Reading? && s.debouncer.paths == [] && s.debouncer.trees != []
    case WalkAgain(path) => s.debouncer.Walking? && Inside(path, s.debouncer.dir)
    case FinishWalk(found) => s.debouncer.Walking? && PutAll(map[], found) == s.debouncer.seen
    case CastBatch => s.debouncer.Reading? && s.debouncer.paths == [] && s.debouncer.trees == []
    case StartRescan => s.rescans > 0 && s.walk.None?
    case RescanAgain(path) => s.walk.Some?
    case FinishRescan(found) => s.walk.Some? && PutAll(map[], found) == s.walk.value
    case Handle => s.mailbox != []
  }

  /** The start of the reads a coalesced window asks for. */
  function ReadingOf(b: WatchBatch, overflow: bool): Debouncer {
    Reading(b.upserts, b.upsertTrees, b.deleteTrees + b.upsertTrees, [], b.deletes, overflow)
  }

  /** One note file read: kept, found missing, or skipped. */
  function FirstRead(vault: Node, d: Debouncer): Debouncer
    requires d.Reading? && d.paths != []
  {
    var rest := d.paths[1..];
    match ScanOne(vault, d.paths[0])
    case Ok(note) => Reading(rest, d.trees, d.prefixes, d.upserts + [note], d.deletes, d.overflow)
    case Err(IoNotFound) => Reading(rest, d.trees, d.prefixes, d.upserts, d.deletes + [d.paths[0]], d.overflow)
    case Err(OtherFailure) => Reading(rest, d.trees, d.prefixes, d.upserts, d.deletes, d.overflow)
  }

  ghost function Next(root: seq<string>, s: State, step: Step): State
    requires Enabled(s, step)
  {
    match step
    case Change(op, after) => s.(vault := after, queue := s.queue + EventsOf(root, op))
    case Lose(after, marked) => s.(vault := after, queue := if marked then s.queue + [OVERFLOW] else s.queue)
    case Noise(n) => s.(queue := s.queue + [n])
    case Deliver => s.(queue := s.queue[1..], debouncer := Window(s.debouncer.events + [s.queue[0]]))
    case CloseWindow => s.(debouncer := Classifying(s.debouncer.events, [], false))
    case MapOne =>
      var d, n := s.debouncer, s.debouncer.todo[0];
      s.(debouncer := Classifying(d.todo[1..], d.actions + ActionsAt(s.vault, root, n),
                              d.overflow || SignalsOverflow(n)))
    case CoalesceWindow(b) =>
      s.(rescans := s.rescans + if s.debouncer.overflow then 1 else 0,
         debouncer :=
           if b == WatchBatch([], [], [], []) then Window([])
           else ReadingOf(b, s.debouncer.overflow))
    case ReadOne =>
      s.(debouncer := FirstRead(s.vault, s.debouncer))
    case StartWalk =>
      var d := s.debouncer;
      s.(debouncer := Walking(d.trees[0], Scanned(s.vault, Segments(d.trees[0])), d.trees[1..],
                              d.prefixes, d.upserts, d.deletes, d.overflow))
    case WalkAgain(path) =>
      s.(debouncer := s.debouncer.(seen := Observed(s.vault, s.debouncer.seen, path)))
    case FinishWalk(found) =>
      var d := s.debouncer;
      s.(debouncer := Reading([], d.trees, d.prefixes, d.upserts + found, d.deletes, d.overflow))
    case CastBatch =>
      var d := s.debouncer;
      s.(debouncer := Window([]), mailbox := s.mailbox + [Batch(IndexBatch(d.upserts, d.deletes, d.prefixes))])
    case StartRescan => s.(rescans := s.rescans - 1, walk := Some(Scanned(s.vault, [])))
    case RescanAgain(path) => s.(walk := Some(Observed(s.vault, s.walk.value, path)))
    case FinishRescan(found) => s.(walk := None, mailbox := s.mailbox + [Rebuild(found)])
    case Handle => s.(mailbox := s.mailbox[1..], store := Handled(s.store, s.mailbox[0]))
  }

  function ActionsAt(vault: Node, root: seq<string>, n: Notify): seq<WatchAction> {
    match n
    case Delivered(event) => ActionsOf(vault, root, event)
    case NotifyError => []
  }

  function Mapped(vault: Node, root: seq<string>): Notify -> seq<WatchAction> {
    (n: Notify) => ActionsAt(vault, root, n)
  }

  /** All the actions the events of one window stand for. */
  function WindowActions(vault: Node, root: seq<string>, events: seq<Notify>): seq<WatchAction> {
    Collect(events, Mapped(vault, root))
  }

  /** What the code relies on and does not enforce:
      - a rescan does not start while the batch of the window that reported the
        overflow is still being built;
      - no batch is cast while the scanner is between its walk and its cast;
      - no metadata event names a directory whose name ends in `.md`;
      - no event is lost on the strength of an overflow mark that other events
        are queued behind. */
  datatype Rule = RescanAfterBatch | NoCastDuringRescan | NoFolderMetadata | NoLossBehindMark

  const ALL_RULES := {RescanAfterBatch, NoCastDuringRescan, NoFolderMetadata, NoLossBehindMark}

  predicate Respects(s: State, step: Step, rules: set<Rule>) {
    && (RescanAfterBatch in rules && step.StartRescan? ==> !BuildingOverflowBatch(s.debouncer))
    && (NoCastDuringRescan in rules && step.CastBatch? ==> s.walk.None?)
    && (NoFolderMetadata in rules && step.Change? && step.op.TouchDir? ==> !IsMarkdown(step.op.path))
    && (NoLossBehindMark in rules && step.Lose? && !step.marked ==>
          s.queue != [] && SignalsOverflow(s.queue[|s.queue| - 1]))
  }

  predicate Orderly(s: State, step: Step) {
    Respects(s, step, ALL_RULES)
  }

  ghost predicate RunUnder(root: seq<string>, s: State, steps: seq<Step>, rules: set<Rule>)
    decreases |steps|
  {
    steps != [] ==>
      && Enabled(s, steps[0])
      && Respects(s, steps[0], rules)
      && RunUnder(root, Next(root, s, steps[0]), steps[1..], rules)
  }

  ghost predicate Run(root: seq<string>, s: State, steps: seq<Step>) {
    RunUnder(root, s, steps, {})
  }

  ghost predicate OrderlyRun(root: seq<string>, s: State, steps: seq<Step>) {
    RunUnder(root, s, steps, ALL_RULES)
  }

  ghost function After(root: seq<string>, s: State, steps: seq<Step>): State
    requires Run(root, s, steps)
    decreases |steps|
  {
    if steps == [] then s else After(root, Next(root, s, steps[0]), steps[1..])
  }
}
