/** The vault directory tree, the pruned walk, and reading single files. */
module Vault {
  import opened Text
  import opened Paths
  import opened Notes

  /** A file either parses into a note or fails (not UTF-8, malformed YAML, no
      permission). */
  datatype FileState = Readable(content: Content) | Unreadable

  /** Directory entries are listed in the order the directory yields them. */
  datatype Node = File(state: FileState) | Dir(entries: seq<Entry>)

  datatype Entry = Entry(name: string, node: Node)

  /** What the operating system makes of a path below a node. */
  datatype Resolution = Found(node: Node) | NotFound | NotADirectory

  // ---- Resolving paths --------------------------------------------------------------

  function Resolve(node: Node, segs: seq<string>): Resolution
    decreases |segs|, 1, 0
  {
    if segs == [] then Found(node)
    else
      match node
      case File(_) => NotADirectory
      case Dir(entries) => ResolveIn(entries, segs)
  }

  function ResolveIn(entries: seq<Entry>, segs: seq<string>): Resolution
    requires segs != []
    decreases |segs|, 0, |entries|
  {
    if entries == [] then NotFound
    else if entries[0].name == segs[0] then Resolve(entries[0].node, segs[1..])
    else ResolveIn(entries[1..], segs)
  }

  predicate WellFormed(node: Node) {
    node.Dir? ==> WellFormedIn(node.entries)
  }

  predicate WellFormedIn(entries: seq<Entry>) {
    entries != [] ==>
      && ValidName(entries[0].name)
      && WellFormed(entries[0].node)
      && (forall e <- entries[1..] :: e.name != entries[0].name)
      && WellFormedIn(entries[1..])
  }

  // ---- The walk -----------------------------------------------------------------------

  datatype Item = Item(at: seq<string>, node: Node)

  /** The entries a `WalkDir` yields from a node on, depth first.  The
      starting node itself is never pruned by name. */
  function Walk(at: seq<string>, node: Node): seq<Item>
    decreases node
  {
    [Item(at, node)] + if node.Dir? then WalkIn(at, node.entries) else []
  }

  function WalkIn(at: seq<string>, entries: seq<Entry>): seq<Item>
    decreases entries
  {
    if entries == [] then []
    else
      (if DotPrefixed(entries[0].name) then [] else Walk(at + [entries[0].name], entries[0].node))
      + WalkIn(at, entries[1..])
  }

  /** The walk yields an entry exactly when the path below the start resolves
      to it without passing a dot-prefixed name. */
  lemma {:induction false} WalkComplete(at: seq<string>, node: Node, segs: seq<string>, found: Node)
    requires WellFormed(node)
    ensures Item(at + segs, found) in Walk(at, node) <==> Resolve(node, segs) == Found(found) && NoDots(segs)
    decreases node, 1
  {
    if segs == [] {
      assert at + segs == at;
      if node.Dir? {
        forall i: Item | i in WalkIn(at, node.entries) ensures |i.at| > |at| {
          WalkInDeeper(at, node.entries, i);
        }
      }
    } else {
      assert |at + segs| > |at|;
      if node.Dir? {
        WalkInComplete(at, node.entries, segs, found);
      }
    }
  }

  lemma {:induction false} WalkInComplete(at: seq<string>, entries: seq<Entry>, segs: seq<string>, found: Node)
    requires WellFormedIn(entries) && segs != []
    ensures Item(at + segs, found) in WalkIn(at, entries) <==> ResolveIn(entries, segs) == Found(found) && NoDots(segs)
    decreases entries, 0
  {
    if entries != [] {
      var e := entries[0];
      WalkInComplete(at, entries[1..], segs, found);
      if e.name == segs[0] {
        assert at + segs == at + [e.name] + segs[1..];
        WalkComplete(at + [e.name], e.node, segs[1..], found);
        assert segs == [segs[0]] + segs[1..];
        ResolveInMissing(entries[1..], segs);
      } else {
        assert (at + segs)[|at|] == segs[0] && (at + [e.name])[|at|] == e.name;
        if Item(at + segs, found) in Walk(at + [e.name], e.node) {
          WalkBelow(at + [e.name], e.node, Item(at + segs, found));
        }
      }
    }
  }

  lemma {:induction false} ResolveInMissing(entries: seq<Entry>, segs: seq<string>)
    requires segs != [] && forall e <- entries :: e.name != segs[0]
    ensures ResolveIn(entries, segs) == NotFound
  {
    if entries != [] {
      ResolveInMissing(entries[1..], segs);
    }
  }

  lemma {:induction false} WalkBelow(at: seq<string>, node: Node, i: Item)
    requires i in Walk(at, node)
    ensures at <= i.at
    decreases node, 1
  {
    if i != Item(at, node) {
      WalkInDeeper(at, node.entries, i);
    }
  }

  lemma {:induction false} WalkInDeeper(at: seq<string>, entries: seq<Entry>, i: Item)
    requires i in WalkIn(at, entries)
    ensures at < i.at
    decreases entries, 0
  {
    if i in WalkIn(at, entries[1..]) {
      WalkInDeeper(at, entries[1..], i);
    } else {
      WalkBelow(at + [entries[0].name], entries[0].node, i);
    }
  }

  // ---- Scanning -------------------------------------------------------------------------

  function NoteOf(i: Item): seq<Note> {
    if i.node.File? && i.node.state.Readable? && IsMarkdown(PathOf(i.at))
    then [NoteAt(PathOf(i.at), i.node.state.content)]
    else []
  }

  function FailureOf(i: Item): seq<string> {
    if i.node.File? && i.node.state.Unreadable? && IsMarkdown(PathOf(i.at)) then [PathOf(i.at)] else []
  }

  function WarningOf(i: Item): seq<string> {
    if i.node.File? && i.node.state.Readable? && IsMarkdown(PathOf(i.at)) && i.node.state.content.notMapping
    then [PathOf(i.at)]
    else []
  }

  /** Concatenate what each item contributes. */
  function Collect<A, B>(items: seq<A>, f: A -> seq<B>): seq<B> {
    if items == [] then [] else f(items[0]) + Collect(items[1..], f)
  }

  lemma {:induction false} CollectConcat<A, B>(a: seq<A>, b: seq<A>, f: A -> seq<B>)
    ensures Collect(a + b, f) == Collect(a, f) + Collect(b, f)
  {
    if a == [] {
      assert a + b == b;
    } else {
      assert (a + b)[1..] == a[1..] + b;
      CollectConcat(a[1..], b, f);
    }
  }

  lemma CollectOne<A, B>(a: A, f: A -> seq<B>)
    ensures Collect([a], f) == f(a)
  {
    assert [a][1..] == [];
  }

  lemma {:induction false} CollectMember<A, B>(items: seq<A>, f: A -> seq<B>, x: B)
    ensures x in Collect(items, f) <==> exists i <- items :: x in f(i)
  {
    if items != [] {
      CollectMember(items[1..], f, x);
      assert items == [items[0]] + items[1..];
    }
  }

  function NotesOf(items: seq<Item>): seq<Note> {
    Collect(items, NoteOf)
  }

  function FailuresOf(items: seq<Item>): seq<string> {
    Collect(items, FailureOf)
  }

  function WarningsOf(items: seq<Item>): seq<string> {
    Collect(items, WarningOf)
  }

  /** The notes a scan started at `start` returns. */
  function ScanNotes(root: Node, start: seq<string>): seq<Note> {
    match Resolve(root, start)
    case Found(node) => NotesOf(Walk(start, node))
    case _ => []
  }

  /** The paths it reports as failed; the start itself if it is not there. */
  function ScanFailures(root: Node, start: seq<string>): seq<string> {
    match Resolve(root, start)
    case Found(node) => FailuresOf(Walk(start, node))
    case _ => [PathOf(start)]
  }

  /** The paths it warns about. */
  function ScanWarnings(root: Node, start: seq<string>): seq<string> {
    match Resolve(root, start)
    case Found(node) => WarningsOf(Walk(start, node))
    case _ => []
  }

  method ScanFrom(root: Node, start: seq<string>) returns (notes: seq<Note>, issues: seq<string>, warnings: seq<string>)
    ensures notes == ScanNotes(root, start)
    ensures issues == ScanFailures(root, start)
    ensures warnings == ScanWarnings(root, start)
  {
    notes, issues, warnings := [], [], [];
    match Resolve(root, start) {
      case NotFound => return [], [PathOf(start)], [];
      case NotADirectory => return [], [PathOf(start)], [];
      case Found(node) =>
        var walker := Walk(start, node);
        for k := 0 to |walker|
          invariant notes == NotesOf(walker[..k]) && issues == FailuresOf(walker[..k])
          invariant warnings == WarningsOf(walker[..k])
        {
          var entry := walker[k];
          assert walker[..k + 1] == walker[..k] + [entry];
          CollectConcat(walker[..k], [entry], NoteOf);
          CollectConcat(walker[..k], [entry], FailureOf);
          CollectConcat(walker[..k], [entry], WarningOf);
          if !entry.node.File? { continue; }
          var path := PathOf(entry.at);
          if !IsMarkdown(path) { continue; }
          match entry.node.state {
            case Readable(c) =>
              if c.notMapping { warnings := warnings + [path]; }
              notes := notes + [NoteAt(path, c)];
            case Unreadable => issues := issues + [path];
          }
        }
        assert walker[..|walker|] == walker;
    }
  }

  // ---- A subtree scan is the full scan restricted to the subtree ---------------------------

  function Within(items: seq<Item>, dir: seq<string>): seq<Item> {
    Collect(items, KeepWithin(dir))
  }

  function KeepWithin(dir: seq<string>): Item -> seq<Item> {
    (i: Item) => if dir <= i.at then [i] else []
  }

  lemma {:induction false} WithinAll(items: seq<Item>, dir: seq<string>)
    requires forall i <- items :: dir <= i.at
    ensures Within(items, dir) == items
  {
    if items != [] { WithinAll(items[1..], dir); }
  }

  lemma {:induction false} WithinNone(items: seq<Item>, dir: seq<string>)
    requires forall i <- items :: !(dir <= i.at)
    ensures Within(items, dir) == []
  {
    if items != [] { WithinNone(items[1..], dir); }
  }

  /** The entries at or below one directory are one contiguous part of the
      walk: the walk that starts there. */
  lemma {:induction false} WalkWithin(at: seq<string>, node: Node, segs: seq<string>)
    requires WellFormed(node)
    ensures Within(Walk(at, node), at + segs)
         == if Resolve(node, segs).Found? && NoDots(segs) then Walk(at + segs, Resolve(node, segs).node) else []
    decreases node, 1
  {
    if segs == [] {
      assert at + segs == at;
      forall i | i in Walk(at, node) ensures at <= i.at { WalkBelow(at, node, i); }
      WithinAll(Walk(at, node), at);
    } else {
      CollectConcat([Item(at, node)], if node.Dir? then WalkIn(at, node.entries) else [], KeepWithin(at + segs));
      if node.Dir? {
        WalkInWithin(at, node.entries, segs);
      }
    }
  }

  lemma {:induction false} WalkInWithin(at: seq<string>, entries: seq<Entry>, segs: seq<string>)
    requires WellFormedIn(entries) && segs != []
    ensures Within(WalkIn(at, entries), at + segs)
         == if ResolveIn(entries, segs).Found? && NoDots(segs)
            then Walk(at + segs, ResolveIn(entries, segs).node) else []
    decreases entries, 0
  {
    if entries != [] {
      var e := entries[0];
      WalkInWithin(at, entries[1..], segs);
      var here := if DotPrefixed(e.name) then [] else Walk(at + [e.name], e.node);
      CollectConcat(here, WalkIn(at, entries[1..]), KeepWithin(at + segs));
      if e.name == segs[0] {
        assert at + segs == at + [e.name] + segs[1..];
        assert segs == [segs[0]] + segs[1..];
        WalkWithin(at + [e.name], e.node, segs[1..]);
        ResolveInMissing(entries[1..], segs);
      } else {
        assert (at + segs)[|at|] == segs[0] && (at + [e.name])[|at|] == e.name;
        forall i | i in here ensures !(at + segs <= i.at) {
          WalkBelow(at + [e.name], e.node, i);
        }
        WithinNone(here, at + segs);
      }
    }
  }

  /** The notes of a list that lie under a directory. */
  function Below(notes: seq<Note>, dir: string): seq<Note> {
    Collect(notes, KeepUnder(dir))
  }

  function KeepUnder(dir: string): Note -> seq<Note> {
    (n: Note) => if Under(n.path, dir) then [n] else []
  }

  lemma {:induction false} NotesWithin(items: seq<Item>, dir: seq<string>)
    requires dir != [] && ValidNames(dir)
    requires forall i <- items :: ValidNames(i.at) && (i.at == [] || i.at == dir ==> i.node.Dir?)
    ensures NotesOf(Within(items, dir)) == Below(NotesOf(items), PathOf(dir))
  {
    if items != [] {
      var i := items[0];
      NotesWithin(items[1..], dir);
      CollectConcat(KeepWithin(dir)(i), Within(items[1..], dir), NoteOf);
      CollectConcat(NoteOf(i), NotesOf(items[1..]), KeepUnder(PathOf(dir)));
      OneWithin(i, dir);
    }
  }

  lemma OneWithin(i: Item, dir: seq<string>)
    requires dir != [] && ValidNames(dir)
    requires ValidNames(i.at) && (i.at == [] || i.at == dir ==> i.node.Dir?)
    ensures NotesOf(KeepWithin(dir)(i)) == Below(NoteOf(i), PathOf(dir))
  {
    CollectOne(i, NoteOf);
    if NoteOf(i) != [] {
      SegmentsOfPath(i.at);
      SegmentsOfPath(dir);
      UnderIsProperPrefix(PathOf(i.at), PathOf(dir));
      CollectOne(NoteOf(i)[0], KeepUnder(PathOf(dir)));
    }
  }

  lemma {:induction false} WalkNamesValid(at: seq<string>, node: Node, i: Item)
    requires WellFormed(node) && ValidNames(at) && i in Walk(at, node)
    ensures ValidNames(i.at)
    decreases node, 1
  {
    if i != Item(at, node) {
      WalkInNamesValid(at, node.entries, i);
    }
  }

  lemma {:induction false} WalkInNamesValid(at: seq<string>, entries: seq<Entry>, i: Item)
    requires WellFormedIn(entries) && ValidNames(at) && i in WalkIn(at, entries)
    ensures ValidNames(i.at)
    decreases entries, 0
  {
    if i in WalkIn(at, entries[1..]) {
      WalkInNamesValid(at, entries[1..], i);
    } else {
      WalkNamesValid(at + [entries[0].name], entries[0].node, i);
    }
  }

  lemma ResolveWalked(root: Node, i: Item)
    requires WellFormed(root) && i in Walk([], root)
    ensures Resolve(root, i.at) == Found(i.node)
  {
    assert [] + i.at == i.at;
    WalkComplete([], root, i.at, i.node);
  }

  /** Scanning a directory yields, in the same order, exactly the notes the
      full scan yields under it. */
  lemma SubtreeScan(root: Node, dir: string)
    requires root.Dir? && WellFormed(root) && ValidPath(dir) && Visible(dir)
    requires Resolve(root, Segments(dir)).Found? && Resolve(root, Segments(dir)).node.Dir?
    ensures ScanNotes(root, Segments(dir)) == Below(ScanNotes(root, []), dir)
  {
    var d := Segments(dir);
    assert [] + d == d;
    WalkWithin([], root, d);
    forall i | i in Walk([], root)
      ensures ValidNames(i.at) && (i.at == [] || i.at == d ==> i.node.Dir?)
    {
      WalkNamesValid([], root, i);
      ResolveWalked(root, i);
    }
    NotesWithin(Walk([], root), d);
    PathOfSegments(dir);
  }

  // ---- Which notes a scan finds -------------------------------------------------------------

  /** What the vault holds for one path of the index. */
  function IndexedNote(root: Node, path: string): Option<Note> {
    if !Visible(path) || !IsMarkdown(path) then None
    else
      match Resolve(root, Segments(path))
      case Found(File(Readable(c))) => Some(NoteAt(path, c))
      case _ => None
  }

  lemma {:induction false} ResolveAppend(node: Node, a: seq<string>, b: seq<string>)
    ensures Resolve(node, a + b)
         == if Resolve(node, a).Found? then Resolve(Resolve(node, a).node, b) else Resolve(node, a)
    decreases |a|, 1, 0
  {
    if a == [] {
      assert a + b == b;
    } else if node.Dir? {
      ResolveInAppend(node.entries, a, b);
    }
  }

  lemma {:induction false} ResolveInAppend(entries: seq<Entry>, a: seq<string>, b: seq<string>)
    requires a != []
    ensures ResolveIn(entries, a + b)
         == if ResolveIn(entries, a).Found? then Resolve(ResolveIn(entries, a).node, b) else ResolveIn(entries, a)
    decreases |a|, 0, |entries|
  {
    if entries != [] {
      if entries[0].name == a[0] {
        assert (a + b)[1..] == a[1..] + b;
        ResolveAppend(entries[0].node, a[1..], b);
      } else {
        ResolveInAppend(entries[1..], a, b);
      }
    }
  }

  /** One more component: a directory has it or has not, and a file has
      nothing below it. */
  lemma OneStepDown(root: Node, segs: seq<string>, name: string)
    requires WellFormed(root)
    ensures Resolve(root, segs + [name]) == NotADirectory
       <==> Resolve(root, segs) == NotADirectory || exists s :: Resolve(root, segs) == Found(File(s))
    ensures forall n :: Resolve(root, segs + [name]) == Found(n) <==>
              exists entries :: Resolve(root, segs) == Found(Dir(entries)) && Entry(name, n) in entries
  {
    ResolveAppend(root, segs, [name]);
    match Resolve(root, segs)
    case Found(Dir(entries)) =>
      ResolvedWellFormed(root, segs);
      EntryExactly(entries, name);
    case Found(File(s)) =>
      assert Resolve(root, segs) == Found(File(s));
    case _ =>
  }

  lemma {:induction false} ResolvedWellFormed(node: Node, segs: seq<string>)
    requires WellFormed(node) && Resolve(node, segs).Found?
    ensures WellFormed(Resolve(node, segs).node)
    decreases |segs|, 1, 0
  {
    if segs != [] { ResolvedInWellFormed(node.entries, segs); }
  }

  lemma {:induction false} ResolvedInWellFormed(entries: seq<Entry>, segs: seq<string>)
    requires segs != [] && WellFormedIn(entries) && ResolveIn(entries, segs).Found?
    ensures WellFormed(ResolveIn(entries, segs).node)
    decreases |segs|, 0, |entries|
  {
    if entries[0].name == segs[0] {
      ResolvedWellFormed(entries[0].node, segs[1..]);
    } else {
      ResolvedInWellFormed(entries[1..], segs);
    }
  }

  lemma {:induction false} EntryExactly(entries: seq<Entry>, name: string)
    requires WellFormedIn(entries)
    ensures ResolveIn(entries, [name]) != NotADirectory
    ensures forall n :: ResolveIn(entries, [name]) == Found(n) <==> Entry(name, n) in entries
  {
    if entries != [] {
      EntryExactly(entries[1..], name);
      assert [name][1..] == [];
      assert entries == [entries[0]] + entries[1..];
    }
  }

  /** A file stands where the path needs a directory. */
  predicate FileAbove(root: Node, segs: seq<string>) {
    exists i | 0 <= i < |segs| :: var above := Resolve(root, segs[..i]); above.Found? && above.node.File?
  }

  /** The two ways of not being there: below a file, or nowhere. */
  lemma {:induction false} BlockedExactly(root: Node, segs: seq<string>)
    requires WellFormed(root)
    ensures Resolve(root, segs) == NotADirectory <==> FileAbove(root, segs)
    ensures Resolve(root, segs) == NotFound <==> !Resolve(root, segs).Found? && !FileAbove(root, segs)
    decreases |segs|
  {
    if segs != [] {
      var init := segs[..|segs| - 1];
      assert segs == init + [segs[|segs| - 1]];
      BlockedExactly(root, init);
      OneStepDown(root, init, segs[|segs| - 1]);
      assert forall i | 0 <= i < |init| :: segs[..i] == init[..i];
      if FileAbove(root, segs) && !FileAbove(root, init) {
        var i :| 0 <= i < |segs| && Resolve(root, segs[..i]).Found? && Resolve(root, segs[..i]).node.File?;
        assert i == |init|;
        assert Resolve(root, init) == Found(File(Resolve(root, init).node.state));
      }
      if FileAbove(root, init) {
        var i :| 0 <= i < |init| && Resolve(root, init[..i]).Found? && Resolve(root, init[..i]).node.File?;
        assert segs[..i] == init[..i];
      }
      if Resolve(root, init).Found? && Resolve(root, init).node.File? {
        assert segs[..|init|] == init;
      }
    }
  }

  lemma {:induction false} ResolveNamesValid(node: Node, segs: seq<string>)
    requires WellFormed(node) && Resolve(node, segs).Found?
    ensures ValidNames(segs)
    decreases |segs|, 1, 0
  {
    if segs != [] {
      ResolveInNamesValid(node.entries, segs);
    }
  }

  lemma {:induction false} ResolveInNamesValid(entries: seq<Entry>, segs: seq<string>)
    requires WellFormedIn(entries) && segs != [] && ResolveIn(entries, segs).Found?
    ensures ValidNames(segs)
    decreases |segs|, 0, |entries|
  {
    if entries[0].name == segs[0] {
      ResolveNamesValid(entries[0].node, segs[1..]);
      assert segs == [segs[0]] + segs[1..];
    } else {
      ResolveInNamesValid(entries[1..], segs);
    }
  }

  /** The walk from a directory meets exactly what the vault holds at or below
      it, dot-prefixed names apart. */
  lemma WalkedExactly(root: Node, start: seq<string>, segs: seq<string>, node: Node)
    requires WellFormed(root) && NoDots(start) && Resolve(root, start).Found?
    ensures Item(segs, node) in Walk(start, Resolve(root, start).node)
       <==> start <= segs && NoDots(segs) && Resolve(root, segs) == Found(node)
  {
    var sub := Resolve(root, start).node;
    ResolveWellFormed(root, start);
    if Item(segs, node) in Walk(start, sub) { WalkBelow(start, sub, Item(segs, node)); }
    if start <= segs {
      var rest := segs[|start|..];
      assert segs == start + rest;
      ResolveAppend(root, start, rest);
      WalkComplete(start, sub, rest, node);
    }
  }

  /** A file the walk meets, under its path as text. */
  lemma WalkedFile(root: Node, start: seq<string>, path: string, state: FileState)
    requires root.Dir? && WellFormed(root) && NoDots(start) && Resolve(root, start).Found?
    ensures (exists i <- Walk(start, Resolve(root, start).node) :: i.node == File(state) && PathOf(i.at) == path)
       <==> start <= Segments(path) && Visible(path) && Resolve(root, Segments(path)) == Found(File(state))
  {
    var walker := Walk(start, Resolve(root, start).node);
    WalkedExactly(root, start, Segments(path), File(state));
    PathOfSegments(path);
    forall i | i in walker && i.node == File(state) && PathOf(i.at) == path
      ensures i == Item(Segments(path), File(state))
    {
      WalkedExactly(root, start, i.at, i.node);
      ResolveNamesValid(root, i.at);
      SegmentsOfPath(i.at);
    }
    if Item(Segments(path), File(state)) in walker {
      assert Item(Segments(path), File(state)).node == File(state);
    }
  }

  /** A scan from `start` returns exactly the indexed notes at or below it. */
  lemma ScanExact(root: Node, start: seq<string>, n: Note)
    requires root.Dir? && WellFormed(root) && NoDots(start)
    ensures n in ScanNotes(root, start)
       <==> IndexedNote(root, n.path) == Some(n) && start <= Segments(n.path)
  {
    if Resolve(root, start).Found? {
      var walker := Walk(start, Resolve(root, start).node);
      CollectMember(walker, NoteOf, n);
      if i :| i in walker && n in NoteOf(i) {
        WalkedFile(root, start, n.path, i.node.state);
      }
      if IndexedNote(root, n.path) == Some(n) && start <= Segments(n.path) {
        var state := Resolve(root, Segments(n.path)).node.state;
        WalkedFile(root, start, n.path, state);
        var i :| i in walker && i.node == File(state) && PathOf(i.at) == n.path;
        assert n in NoteOf(i);
      }
    } else if start <= Segments(n.path) {
      var rest := Segments(n.path)[|start|..];
      assert Segments(n.path) == start + rest;
      ResolveAppend(root, start, rest);
    }
  }

  /** It reports as failed exactly the visible Markdown files at or below
      `start` that cannot be read. */
  lemma FailureExact(root: Node, start: seq<string>, path: string)
    requires root.Dir? && WellFormed(root) && NoDots(start) && Resolve(root, start).Found?
    ensures path in ScanFailures(root, start)
       <==> && start <= Segments(path) && Visible(path) && IsMarkdown(path)
            && Resolve(root, Segments(path)) == Found(File(Unreadable))
  {
    var walker := Walk(start, Resolve(root, start).node);
    CollectMember(walker, FailureOf, path);
    WalkedFile(root, start, path, Unreadable);
    if i :| i in walker && i.node == File(Unreadable) && PathOf(i.at) == path {
      assert IsMarkdown(path) ==> path in FailureOf(i);
    }
  }

  /** It warns exactly about those it reads without finding a mapping. */
  lemma WarningExact(root: Node, start: seq<string>, path: string)
    requires root.Dir? && WellFormed(root) && NoDots(start) && Resolve(root, start).Found?
    ensures path in ScanWarnings(root, start)
       <==> && start <= Segments(path) && Visible(path) && IsMarkdown(path)
            && exists c: Content :: c.notMapping && Resolve(root, Segments(path)) == Found(File(Readable(c)))
  {
    var walker := Walk(start, Resolve(root, start).node);
    CollectMember(walker, WarningOf, path);
    if i :| i in walker && path in WarningOf(i) {
      WalkedFile(root, start, path, i.node.state);
      assert i.node.state == Readable(i.node.state.content);
    }
    if c: Content :| c.notMapping && Resolve(root, Segments(path)) == Found(File(Readable(c))) {
      WalkedFile(root, start, path, Readable(c));
      if i :| i in walker && i.node == File(Readable(c)) && PathOf(i.at) == path {
        assert IsMarkdown(path) ==> path in WarningOf(i);
      }
    }
  }

  lemma {:induction false} ResolveWellFormed(node: Node, segs: seq<string>)
    requires WellFormed(node) && Resolve(node, segs).Found?
    ensures WellFormed(Resolve(node, segs).node)
    decreases |segs|, 1, 0
  {
    if segs != [] {
      ResolveInWellFormed(node.entries, segs);
    }
  }

  lemma {:induction false} ResolveInWellFormed(entries: seq<Entry>, segs: seq<string>)
    requires WellFormedIn(entries) && segs != [] && ResolveIn(entries, segs).Found?
    ensures WellFormed(ResolveIn(entries, segs).node)
    decreases |segs|, 0, |entries|
  {
    if entries[0].name == segs[0] {
      ResolveWellFormed(entries[0].node, segs[1..]);
    } else {
      ResolveInWellFormed(entries[1..], segs);
    }
  }
}
