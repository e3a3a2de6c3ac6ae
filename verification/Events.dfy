/** What each kind of native event is mapped to. */
module Events {
  import opened Text
  import opened Paths
  import opened Vault
  import opened Watcher
  import opened Protocol
  import opened Changes

  function Single(kind: EventKind, abs: seq<string>): Event {
    Event(kind, [abs], false)
  }

  /** A change of content or metadata names a note to read. */
  function NoteAction(path: string): seq<WatchAction> {
    if Visible(path) && IsMarkdown(path) then [Upsert(path)] else []
  }

  /** What has come into being: a directory to walk, or a note to read. */
  function ComeActions(vault: Node, path: string): seq<WatchAction> {
    if ViewAt(vault, path).Folder? then (if Visible(path) then [UpsertTree(path)] else []) else NoteAction(path)
  }

  /** What is gone may have been a note, a directory, or a directory named
      like a note. */
  function GoneActions(path: string): seq<WatchAction> {
    (if Visible(path) && IsMarkdown(path) then [Delete(path)] else []) +
    (if Visible(path) then [DeleteTree(path)] else [])
  }

  lemma PathActions(vault: Node, root: seq<string>, path: string)
    requires ValidPath(path)
    ensures Modified(root)(Absolute(root, path)) == NoteAction(path)
    ensures Appeared(vault, root)(Absolute(root, path)) == ComeActions(vault, path)
    ensures Vanished(root)(Absolute(root, path)) == GoneActions(path)
  {
    RelativeOf(root, path);
    IsDirIsFolder(vault, root, path);
  }

  /** Writing to a file, however it is reported, upserts the note. */
  lemma WriteKinds(vault: Node, root: seq<string>, kind: EventKind, path: string)
    requires kind in {ModifyData, ModifyMetadata, ModifyAny, AccessCloseWrite} && ValidPath(path)
    ensures ActionsOf(vault, root, Single(kind, Absolute(root, path))) == NoteAction(path)
  {
    PathActions(vault, root, path);
    CollectOne(Absolute(root, path), Modified(root));
  }

  lemma AppearKinds(vault: Node, root: seq<string>, kind: EventKind, path: string)
    requires kind in {Create, RenameTo} && ValidPath(path)
    ensures ActionsOf(vault, root, Single(kind, Absolute(root, path))) == ComeActions(vault, path)
  {
    PathActions(vault, root, path);
    CollectOne(Absolute(root, path), Appeared(vault, root));
  }

  lemma VanishKinds(vault: Node, root: seq<string>, kind: EventKind, path: string)
    requires kind in {Remove, RenameFrom} && ValidPath(path)
    ensures ActionsOf(vault, root, Single(kind, Absolute(root, path))) == GoneActions(path)
  {
    PathActions(vault, root, path);
    CollectOne(Absolute(root, path), Vanished(root));
  }

  lemma PairMapped(vault: Node, root: seq<string>, from: seq<string>, to: seq<string>)
    ensures ActionsOf(vault, root, Event(RenameBoth, [from, to], false))
         == Vanished(root)(from) + Appeared(vault, root)(to)
    ensures ActionsOf(vault, root, Single(RenameBoth, from)) == Vanished(root)(from) + []
  {
  }

  /** A paired rename: the first path is gone, the second has come. */
  lemma PairedRename(vault: Node, root: seq<string>, from: string, to: string)
    requires ValidPath(from) && ValidPath(to)
    ensures ActionsOf(vault, root, Event(RenameBoth, [Absolute(root, from), Absolute(root, to)], false))
         == GoneActions(from) + ComeActions(vault, to)
    ensures ActionsOf(vault, root, Single(RenameBoth, Absolute(root, from))) == GoneActions(from)
  {
    PairMapped(vault, root, Absolute(root, from), Absolute(root, to));
    PathActions(vault, root, from);
    PathActions(vault, root, to);
    assert GoneActions(from) + [] == GoneActions(from);
  }

  lemma UnpairedMapped(vault: Node, root: seq<string>, kind: EventKind, abs: seq<string>)
    requires kind in {RenameAny, RenameOther}
    ensures ActionsOf(vault, root, Single(kind, abs))
         == if ExistsAt(vault, root, abs) then Appeared(vault, root)(abs) else Vanished(root)(abs)
  {
    CollectOne(abs, Unpaired(vault, root));
  }

  lemma ThereAt(vault: Node, root: seq<string>, path: string)
    ensures ExistsAt(vault, root, Absolute(root, path)) <==> Resolve(vault, Segments(path)).Found?
  {
    assert Absolute(root, path)[|root|..] == Segments(path);
  }

  /** An unpaired rename goes by what is there. */
  lemma UnpairedRename(vault: Node, root: seq<string>, kind: EventKind, path: string)
    requires kind in {RenameAny, RenameOther} && ValidPath(path)
    ensures ActionsOf(vault, root, Single(kind, Absolute(root, path)))
         == if Resolve(vault, Segments(path)).Found? then ComeActions(vault, path) else GoneActions(path)
  {
    UnpairedMapped(vault, root, kind, Absolute(root, path));
    ThereAt(vault, root, path);
    PathActions(vault, root, path);
  }

  /** Every other kind of event stands for no action, and so does an overflow
      whatever its kind. */
  lemma SilentEvents(vault: Node, root: seq<string>, event: Event)
    requires event.rescan || event.kind in {AccessOther, ModifyOther, AnyKind, OtherKind}
    ensures ActionsOf(vault, root, event) == []
  {
  }

  /** An event that names several paths stands for what it would stand for
      path by path. */
  lemma SeveralPaths(vault: Node, root: seq<string>, kind: EventKind, ps: seq<seq<string>>, qs: seq<seq<string>>)
    requires kind != RenameBoth
    ensures ActionsOf(vault, root, Event(kind, ps + qs, false))
         == ActionsOf(vault, root, Event(kind, ps, false)) + ActionsOf(vault, root, Event(kind, qs, false))
  {
    match Classify(kind) {
      case Some(Modify) => CollectConcat(ps, qs, Modified(root));
      case Some(Appear) => CollectConcat(ps, qs, Appeared(vault, root));
      case Some(Vanish) => CollectConcat(ps, qs, Vanished(root));
      case Some(RenameUnpaired) => CollectConcat(ps, qs, Unpaired(vault, root));
      case _ =>
    }
  }

  /** A path outside the vault stands for nothing. */
  lemma OutsideIsSilent(vault: Node, root: seq<string>, kind: EventKind, abs: seq<string>)
    requires !(root <= abs)
    ensures ActionsOf(vault, root, Single(kind, abs)) == []
  {
    CollectOne(abs, Modified(root));
    CollectOne(abs, Appeared(vault, root));
    CollectOne(abs, Vanished(root));
    CollectOne(abs, Unpaired(vault, root));
  }
}
