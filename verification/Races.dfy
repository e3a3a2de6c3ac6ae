/** Each of the four rules is needed: dropping any one of them admits a run
    that ends with nothing pending and the store wrong. */
module Races {
  import opened Text
  import opened Paths
  import opened Notes
  import opened Store
  import opened Vault
  import opened Watcher
  import opened App
  import opened Protocol
  import opened Runs
  import opened Convergence
  import opened Changes
  import opened Safety

  const EMPTY := Dir([])

  /** A top-level note name, such as `a.md`. */
  predicate NoteName(a: string) {
    Segments(a) == [a] && Indexable(a)
  }

  lemma SomeNoteName()
    ensures NoteName("a.md")
  {
    SplitNone("a.md", '/');
    assert LastDot("a.") == 1;
    assert "a.m"[..2] == "a.";
    assert LastDot("a.m") == 1;
    assert "a.md"[..3] == "a.m";
    assert LastDot("a.md") == 1;
    assert "a.md"[2..] == "md";
  }

  function Only(a: string, c: Content): Node {
    Dir([Entry(a, File(Readable(c)))])
  }

  function OnlyFolder(a: string): Node {
    Dir([Entry(a, EMPTY)])
  }

  lemma ResolveChild(a: string, child: Node, segs: seq<string>)
    requires segs != []
    ensures Resolve(Dir([Entry(a, child)]), segs) == if segs[0] == a then Resolve(child, segs[1..]) else NotFound
  {
    var es := [Entry(a, child)];
    assert es[1..] == [] && ResolveIn([], segs) == NotFound;
    assert ResolveIn(es, segs) == if es[0].name == segs[0] then Resolve(child, segs[1..]) else ResolveIn(es[1..], segs);
  }

  lemma Views(a: string, c: Content, q: string)
    requires NoteName(a)
    ensures ViewAt(EMPTY, q) == Missing
    ensures ViewAt(Only(a, c), q) == if q == a then Regular(Readable(c)) else Missing
    ensures ViewAt(OnlyFolder(a), q) == if q == a then Folder else Missing
  {
    PathOfSegments(q);
    var segs := Segments(q);
    ResolveChild(a, File(Readable(c)), segs);
    ResolveChild(a, EMPTY, segs);
    assert Resolve(EMPTY, segs) == ResolveIn([], segs);
    if segs[1..] != [] {
      assert Resolve(EMPTY, segs[1..]) == ResolveIn([], segs[1..]);
    }
    assert segs == [segs[0]] + segs[1..];
    assert q == a <==> segs[0] == a && segs[1..] == [];
  }

  lemma TreesWellFormed(a: string, c: Content)
    requires NoteName(a)
    ensures WellFormed(EMPTY) && WellFormed(Only(a, c)) && WellFormed(OnlyFolder(a))
  {
    assert a in Segments(a);
    assert [Entry(a, EMPTY)][1..] == [] && [Entry(a, File(Readable(c)))][1..] == [];
  }

  lemma SameMap(m: NoteMap, n: NoteMap)
    requires forall path :: OfMap(m, path) == OfMap(n, path)
    ensures m == n
  {
    forall path ensures path in m <==> path in n {
      assert OfMap(m, path) == OfMap(n, path);
    }
    forall path | path in m ensures m[path] == n[path] {
      assert OfMap(m, path) == OfMap(n, path);
    }
  }

  lemma ScansAt(a: string, c: Content, path: string)
    requires NoteName(a)
    ensures OfMap(Scanned(EMPTY, []), path) == Keep
    ensures OfMap(Scanned(Only(a, c), []), path) == if path == a then Put(NoteAt(a, c)) else Keep
    ensures OfMap(Scanned(OnlyFolder(a), [a]), path) == Keep
  {
    TreesWellFormed(a, c);
    Views(a, c, path);
    ScannedBelow(EMPTY, [], path);
    ScannedBelow(Only(a, c), [], path);
    ScannedBelow(OnlyFolder(a), [a], path);
  }

  lemma Scans(a: string, c: Content)
    requires NoteName(a)
    ensures Scanned(EMPTY, []) == map[]
    ensures Scanned(Only(a, c), []) == map[a := NoteAt(a, c)]
    ensures Scanned(OnlyFolder(a), [a]) == map[]
  {
    forall path
      ensures OfMap(Scanned(EMPTY, []), path) == OfMap(map[], path)
      ensures OfMap(Scanned(Only(a, c), []), path) == OfMap(map[a := NoteAt(a, c)], path)
      ensures OfMap(Scanned(OnlyFolder(a), [a]), path) == OfMap(map[], path)
    {
      ScansAt(a, c, path);
    }
    SameMap(Scanned(EMPTY, []), map[]);
    SameMap(Scanned(Only(a, c), []), map[a := NoteAt(a, c)]);
    SameMap(Scanned(OnlyFolder(a), [a]), map[]);
  }

  // ---- Building a run step by step -------------------------------------------------------

  lemma DoChange(s0: State, s: State, op: VaultOp, after: Node, rules: set<Rule>) returns (t: State)
    requires Reaches([], s0, s, rules) && after.Dir? && WellFormed(after) && OpChanges(s.vault, op, after)
    requires NoFolderMetadata in rules ==> !op.TouchDir?
    ensures t == s.(vault := after, queue := s.queue + EventsOf([], op)) && Reaches([], s0, t, rules)
  {
    t := Do([], s0, s, Change(op, after), rules);
  }

  /** An event is lost and marked. */
  lemma DoLose(s0: State, s: State, after: Node, rules: set<Rule>) returns (t: State)
    requires Reaches([], s0, s, rules) && after.Dir? && WellFormed(after)
    ensures t == s.(vault := after, queue := s.queue + [OVERFLOW]) && Reaches([], s0, t, rules)
  {
    t := Do([], s0, s, Lose(after, true), rules);
  }

  /** One window takes in everything queued. */
  lemma {:induction false} DoWindow(s0: State, s: State, rules: set<Rule>) returns (t: State)
    requires Reaches([], s0, s, rules) && s.debouncer.Window? && s.debouncer.events + s.queue != []
    ensures t == s.(queue := [], debouncer := Classifying(s.debouncer.events + s.queue, [], false))
    ensures Reaches([], s0, t, rules)
    decreases |s.queue|
  {
    if s.queue == [] {
      assert s.debouncer.events + s.queue == s.debouncer.events;
      t := Do([], s0, s, CloseWindow, rules);
    } else {
      t := DoDeliver(s0, s, rules);
      t := DoWindow(s0, t, rules);
    }
  }

  lemma DoDeliver(s0: State, s: State, rules: set<Rule>) returns (t: State)
    requires Reaches([], s0, s, rules) && s.debouncer.Window? && s.queue != []
    ensures t == s.(queue := s.queue[1..], debouncer := Window(s.debouncer.events + [s.queue[0]]))
    ensures t.debouncer.events + t.queue == s.debouncer.events + s.queue
    ensures Reaches([], s0, t, rules)
  {
    t := Do([], s0, s, Deliver, rules);
  }

  lemma DoCoalesce(s0: State, s: State, b: WatchBatch, rules: set<Rule>) returns (t: State)
    requires Reaches([], s0, s, rules) && s.debouncer.Classifying? && s.debouncer.todo == []
    requires Coalesces(s.debouncer.actions, b)
    ensures t == s.(rescans := s.rescans + (if s.debouncer.overflow then 1 else 0),
                    debouncer := if b == WatchBatch([], [], [], []) then Window([])
                       else ReadingOf(b, s.debouncer.overflow))
    ensures Reaches([], s0, t, rules)
  {
    t := Do([], s0, s, CoalesceWindow(b), rules);
  }

  lemma DoReadNote(s0: State, s: State, note: Note, rules: set<Rule>) returns (t: State)
    requires Reaches([], s0, s, rules) && s.debouncer.Reading? && s.debouncer.paths != []
    requires ScanOne(s.vault, s.debouncer.paths[0]) == Ok(note)
    ensures t == s.(debouncer := s.debouncer.(paths := s.debouncer.paths[1..], upserts := s.debouncer.upserts + [note]))
    ensures Reaches([], s0, t, rules)
  {
    t := Do([], s0, s, ReadOne, rules);
  }

  lemma DoSkip(s0: State, s: State, rules: set<Rule>) returns (t: State)
    requires Reaches([], s0, s, rules) && s.debouncer.Reading? && s.debouncer.paths != []
    requires ScanOne(s.vault, s.debouncer.paths[0]) == Err(OtherFailure)
    ensures t == s.(debouncer := s.debouncer.(paths := s.debouncer.paths[1..])) && Reaches([], s0, t, rules)
  {
    t := Do([], s0, s, ReadOne, rules);
  }

  lemma DoWalk(s0: State, s: State, found: seq<Note>, rules: set<Rule>) returns (t: State)
    requires Reaches([], s0, s, rules) && s.debouncer.Reading? && s.debouncer.paths == [] && s.debouncer.trees != []
    requires PutAll(map[], found) == Scanned(s.vault, Segments(s.debouncer.trees[0]))
    ensures var d := s.debouncer;
            t == s.(debouncer := Reading([], d.trees[1..], d.prefixes, d.upserts + found, d.deletes, d.overflow))
    ensures Reaches([], s0, t, rules)
  {
    t := Do([], s0, s, StartWalk, rules);
    t := Do([], s0, t, FinishWalk(found), rules);
  }

  lemma DoCast(s0: State, s: State, rules: set<Rule>) returns (t: State)
    requires Reaches([], s0, s, rules) && s.debouncer.Reading? && s.debouncer.paths == [] && s.debouncer.trees == []
    requires NoCastDuringRescan in rules ==> s.walk.None?
    ensures var d := s.debouncer;
            t == s.(debouncer := Window([]),
                    mailbox := s.mailbox + [Batch(IndexBatch(d.upserts, d.deletes, d.prefixes))])
    ensures Reaches([], s0, t, rules)
  {
    t := Do([], s0, s, CastBatch, rules);
  }

  lemma DoStartRescan(s0: State, s: State, rules: set<Rule>) returns (t: State)
    requires Reaches([], s0, s, rules) && s.rescans > 0 && s.walk.None?
    requires RescanAfterBatch in rules ==> !BuildingOverflowBatch(s.debouncer)
    ensures t == s.(rescans := s.rescans - 1, walk := Some(Scanned(s.vault, []))) && Reaches([], s0, t, rules)
  {
    t := Do([], s0, s, StartRescan, rules);
  }

  lemma DoFinishRescan(s0: State, s: State, found: seq<Note>, rules: set<Rule>) returns (t: State)
    requires Reaches([], s0, s, rules) && s.walk == Some(PutAll(map[], found))
    ensures t == s.(walk := None, mailbox := s.mailbox + [Rebuild(found)]) && Reaches([], s0, t, rules)
  {
    t := Do([], s0, s, FinishRescan(found), rules);
  }

  lemma DoHandle(s0: State, s: State, rules: set<Rule>) returns (t: State)
    requires Reaches([], s0, s, rules) && s.mailbox != []
    ensures t == s.(mailbox := s.mailbox[1..], store := Handled(s.store, s.mailbox[0])) && Reaches([], s0, t, rules)
  {
    t := Do([], s0, s, Handle, rules);
  }

  /** The startup walk, handled. */
  lemma Start(vault: Node, rules: set<Rule>) returns (s0: State, s: State)
    requires vault.Dir? && WellFormed(vault)
    ensures Initial(s0) && Reaches([], s0, s, rules)
    ensures s == State(vault, [], Window([]), 0, None, [], Scanned(vault, []))
  {
    s0 := State(vault, [], Window([]), 0, None, [Rebuild(ScanNotes(vault, []))], map[]);
    assert RunUnder([], s0, [], rules) && Run([], s0, []) && After([], s0, []) == s0;
    s := DoHandle(s0, s0, rules);
    assert s.mailbox == [];
  }

  /** A run that ends quiet and wrong, with the given rules respected. */
  ghost predicate EndsWrong(root: seq<string>, s0: State, t: State, rules: set<Rule>, path: string) {
    Initial(s0) && Reaches(root, s0, t, rules) && Quiescent(t) && !Agrees(t.vault, t.store, path)
  }

  // ---- The rescan overtakes the overflowing window's batch -------------------------------------

  lemma RemovalAllowed(a: string, c: Content)
    requires NoteName(a)
    ensures OpChanges(Only(a, c), Leave(a, Remove), EMPTY)
  {
    Views(a, c, a);
    forall q ensures ViewAt(EMPTY, q) == if Inside(q, a) then Missing else ViewAt(Only(a, c), q) {
      Views(a, c, q);
    }
  }

  lemma RelativeOfName(a: string)
    requires NoteName(a)
    ensures Absolute([], a) == [a]
    ensures NoteRelative([], [a]) == Some(a) && TreeRelative([], [a]) == Some(a)
  {
    RelativeOf([], a);
    assert Absolute([], a) == [a];
  }

  lemma RemovedActions(a: string, vault: Node)
    requires NoteName(a)
    ensures ActionsAt(vault, [], Raise(Remove, [[a]])) == [Delete(a), DeleteTree(a)]
  {
    RelativeOfName(a);
    CollectOne([a], Vanished([]));
  }

  lemma CoalescedRemoval(a: string)
    ensures Coalesces([Delete(a), DeleteTree(a)], WatchBatch([], [a], [], [a]))
  {
    var acts := [Delete(a), DeleteTree(a)];
    assert acts[..1] == [Delete(a)] && [Delete(a)][..0] == [];
    forall p ensures LastNote(acts, p) == (if p == a then Some(LastDelete) else None)
                  && LastTree(acts, p) == (if p == a then Some(LastDelete) else None) {
      assert LastNote([Delete(a)], p) == if p == a then Some(LastDelete) else None;
      assert LastTree([Delete(a)], p) == None;
    }
  }

  /** A vault of one file, indexed. */
  lemma StartIndexed(a: string, c: Content, rules: set<Rule>) returns (s0: State, s: State)
    requires NoteName(a)
    ensures Initial(s0) && Reaches([], s0, s, rules)
    ensures s == State(Only(a, c), [], Window([]), 0, None, [], map[a := NoteAt(a, c)])
  {
    TreesWellFormed(a, c);
    Scans(a, c);
    s0, s := Start(Only(a, c), rules);
  }

  lemma DoRemove(s0: State, s: State, a: string, c: Content, rules: set<Rule>) returns (t: State)
    requires NoteName(a) && Reaches([], s0, s, rules) && s.vault == Only(a, c)
    ensures t == s.(vault := EMPTY, queue := s.queue + [Raise(Remove, [[a]])]) && Reaches([], s0, t, rules)
  {
    TreesWellFormed(a, c);
    RemovalAllowed(a, c);
    RelativeOfName(a);
    t := DoChange(s0, s, Leave(a, Remove), EMPTY, rules);
  }

  lemma DoCreate(s0: State, s: State, a: string, c: Content, now: Node, rules: set<Rule>) returns (t: State)
    requires NoteName(a) && Reaches([], s0, s, rules) && s.vault == EMPTY
    requires now == Only(a, c) || now == OnlyFolder(a)
    ensures t == s.(vault := now, queue := s.queue + [Raise(Create, [[a]])]) && Reaches([], s0, t, rules)
  {
    TreesWellFormed(a, c);
    CreationAllowed(a, c);
    RelativeOfName(a);
    t := DoChange(s0, s, Enter(a, Create), now, rules);
  }

  lemma DoTouch(s0: State, s: State, a: string, c: Content, rules: set<Rule>) returns (t: State)
    requires NoteName(a) && Reaches([], s0, s, rules) && s.vault == OnlyFolder(a)
    requires NoFolderMetadata !in rules
    ensures t == s.(queue := s.queue + [Raise(ModifyMetadata, [[a]])]) && Reaches([], s0, t, rules)
  {
    TreesWellFormed(a, c);
    RelativeOfName(a);
    Views(a, c, a);
    t := Do([], s0, s, Change(TouchDir(a), s.vault), rules);
  }

  /** A stored note's file is removed, and written again while events are
      being lost. */
  lemma RemovedAndLost(a: string, c: Content, rules: set<Rule>) returns (s0: State, s: State)
    requires NoteName(a)
    ensures Initial(s0) && Reaches([], s0, s, rules)
    ensures s == State(Only(a, c), [Raise(Remove, [[a]]), OVERFLOW], Window([]), 0, None, [], map[a := NoteAt(a, c)])
  {
    s0, s := StartIndexed(a, c, rules);
    s := DoRemove(s0, s, a, c, rules);
    TreesWellFormed(a, c);
    s := DoLose(s0, s, Only(a, c), rules);
  }

  lemma RemovalActions(vault: Node, es: seq<Notify>, acts: seq<WatchAction>)
    requires |es| == 2 && ActionsAt(vault, [], es[0]) == acts && es[1] == OVERFLOW
    ensures WindowActions(vault, [], es) == acts && Overflowed(es)
  {
    assert es == [es[0]] + [OVERFLOW];
    WindowJoins(vault, [], [es[0]], [OVERFLOW]);
    WindowOfOne(vault, [], es[0]);
    WindowOfOne(vault, [], OVERFLOW);
  }

  /** Both reach the same window, which is classified and coalesced. */
  lemma RemovalMapped(a: string, c: Content, rules: set<Rule>) returns (s0: State, s: State)
    requires NoteName(a)
    ensures Initial(s0) && Reaches([], s0, s, rules)
    ensures s == State(Only(a, c), [], Classifying([], [Delete(a), DeleteTree(a)], true), 0, None, [],
                       map[a := NoteAt(a, c)])
  {
    s0, s := RemovedAndLost(a, c, rules);
    var es := s.queue;
    assert [] + es == es;
    s := DoWindow(s0, s, rules);
    RemovedActions(a, Only(a, c));
    RemovalActions(Only(a, c), es, [Delete(a), DeleteTree(a)]);
    s := MapsAll([], s0, s, rules);
    assert s.debouncer.actions == [Delete(a), DeleteTree(a)];
  }

  lemma OverflowBatch(a: string, c: Content, rules: set<Rule>) returns (s0: State, s: State)
    requires NoteName(a)
    ensures Initial(s0) && Reaches([], s0, s, rules)
    ensures s == State(Only(a, c), [], Reading([], [], [a], [], [a], true), 1, None, [], map[a := NoteAt(a, c)])
  {
    s0, s := RemovalMapped(a, c, rules);
    CoalescedRemoval(a);
    s := DoCoalesce(s0, s, WatchBatch([], [a], [], [a]), rules);
    assert [a] + [] == [a];
  }

  lemma HandledRemoval(a: string, c: Content)
    ensures PutAll(map[], [NoteAt(a, c)]) == map[a := NoteAt(a, c)]
    ensures Handled(map[a := NoteAt(a, c)], Batch(IndexBatch([], [a], [a]))) == map[]
  {
    var m := map[a := NoteAt(a, c)];
    assert [NoteAt(a, c)][1..] == [];
    assert a in [a];
    assert WithoutPaths(m, [a]) == map[];
    assert WithoutDirs(map[], [a]) == map[];
  }

  lemma RescanOvertakes(a: string, c: Content, rules: set<Rule>) returns (s0: State, s: State)
    requires NoteName(a) && RescanAfterBatch !in rules
    ensures Initial(s0) && Reaches([], s0, s, rules)
    ensures s == State(Only(a, c), [], Window([]), 0, None,
                       [Rebuild([NoteAt(a, c)]), Batch(IndexBatch([], [a], [a]))], map[a := NoteAt(a, c)])
  {
    s0, s := OverflowBatch(a, c, rules);
    s := DoStartRescan(s0, s, rules);
    ScannedOnly(a, c);
    s := DoFinishRescan(s0, s, [NoteAt(a, c)], rules);
    s := DoCast(s0, s, rules);
    assert s.mailbox == [Rebuild([NoteAt(a, c)]), Batch(IndexBatch([], [a], [a]))];
  }

  /** The rescan starts before the overflowing window's batch is cast, so the
      stale delete lands after the rebuild. */
  lemma RescanBeforeBatchLosesNote(a: string, c: Content) returns (s0: State, s: State)
    requires NoteName(a)
    ensures EndsWrong([], s0, s, ALL_RULES - {RescanAfterBatch}, a)
  {
    var rules := ALL_RULES - {RescanAfterBatch};
    s0, s := RescanOvertakes(a, c, rules);
    HandledRemoval(a, c);
    s := DoHandle(s0, s, rules);
    assert s.mailbox == [Batch(IndexBatch([], [a], [a]))];
    s := DoHandle(s0, s, rules);
    Views(a, c, a);
  }

  // ---- A batch cast while the scanner walks ------------------------------------------------------

  lemma OverflowMapped(rules: set<Rule>) returns (s0: State, s: State)
    ensures Initial(s0) && Reaches([], s0, s, rules)
    ensures s == State(EMPTY, [], Classifying([], [], true), 0, None, [], Scanned(EMPTY, []))
  {
    s0, s := Start(EMPTY, rules);
    s := DoLose(s0, s, EMPTY, rules);
    var es := s.queue;
    assert es == [OVERFLOW] && [] + es == es;
    s := DoWindow(s0, s, rules);
    WindowOfOne(EMPTY, [], OVERFLOW);
    s := MapsAll([], s0, s, rules);
  }

  /** An overflow in an empty vault; the rescan it causes has walked. */
  lemma RescanWalked(rules: set<Rule>) returns (s0: State, s: State)
    ensures Initial(s0) && Reaches([], s0, s, rules)
    ensures s == State(EMPTY, [], Window([]), 0, Some(Scanned(EMPTY, [])), [], Scanned(EMPTY, []))
  {
    s0, s := OverflowMapped(rules);
    assert Coalesces([], WatchBatch([], [], [], []));
    s := DoCoalesce(s0, s, WatchBatch([], [], [], []), rules);
    s := DoStartRescan(s0, s, rules);
  }

  lemma CreationAllowed(a: string, c: Content)
    requires NoteName(a)
    ensures OpChanges(EMPTY, Enter(a, Create), Only(a, c))
    ensures OpChanges(EMPTY, Enter(a, Create), OnlyFolder(a))
  {
    Views(a, c, a);
    forall q ensures !Inside(q, a) ==> ViewAt(Only(a, c), q) == ViewAt(EMPTY, q) == ViewAt(OnlyFolder(a), q) {
      Views(a, c, q);
    }
  }

  lemma AppearedFile(a: string, vault: Node)
    requires NoteName(a) && ViewAt(vault, a).Regular?
    ensures ActionsAt(vault, [], Raise(Create, [[a]])) == [Upsert(a)]
  {
    RelativeOfName(a);
    IsDirIsFolder(vault, [], a);
    CollectOne([a], Appeared(vault, []));
    assert Modified([])([a]) == [Upsert(a)];
  }

  lemma AppearedFolder(a: string, vault: Node)
    requires NoteName(a) && ViewAt(vault, a).Folder?
    ensures ActionsAt(vault, [], Raise(Create, [[a]])) == [UpsertTree(a)]
  {
    RelativeOfName(a);
    IsDirIsFolder(vault, [], a);
    CollectOne([a], Appeared(vault, []));
  }

  lemma AppearedActions(a: string, c: Content)
    requires NoteName(a)
    ensures ActionsAt(Only(a, c), [], Raise(Create, [[a]])) == [Upsert(a)]
    ensures ActionsAt(OnlyFolder(a), [], Raise(Create, [[a]])) == [UpsertTree(a)]
  {
    Views(a, c, a);
    AppearedFile(a, Only(a, c));
    AppearedFolder(a, OnlyFolder(a));
  }

  lemma CoalescedCreation(a: string)
    ensures Coalesces([Upsert(a)], WatchBatch([a], [], [], []))
  {
    assert [Upsert(a)][..0] == [];
    forall p ensures LastNote([Upsert(a)], p) == (if p == a then Some(LastUpsert) else None)
                  && LastTree([Upsert(a)], p) == None {
    }
  }

  lemma CreationActions(a: string, c: Content, es: seq<Notify>)
    requires NoteName(a) && es == [Raise(Create, [[a]])]
    ensures WindowActions(Only(a, c), [], es) == [Upsert(a)] && !Overflowed(es)
  {
    AppearedActions(a, c);
    WindowOfOne(Only(a, c), [], es[0]);
  }

  /** A created file's event goes through one window. */
  lemma DoCreationWindow(s0: State, s: State, a: string, c: Content, rules: set<Rule>) returns (t: State)
    requires NoteName(a) && Reaches([], s0, s, rules)
    requires s.vault == Only(a, c) && s.queue == [Raise(Create, [[a]])] && s.debouncer == Window([])
    ensures t == s.(queue := [], debouncer := Reading([a], [], [], [], [], false)) && Reaches([], s0, t, rules)
  {
    assert [] + s.queue == s.queue;
    CreationActions(a, c, s.queue);
    var u := DoWindow(s0, s, rules);
    assert u.debouncer == Classifying(s.queue, [], false);
    var w := MapsAll([], s0, u, rules);
    assert [] + [Upsert(a)] == [Upsert(a)];
    CoalescedCreation(a);
    var b := WatchBatch([a], [], [], []);
    t := DoCoalesce(s0, w, b, rules);
    assert b.deleteTrees + b.upsertTrees == [];
  }

  /** A file is created and reported while the scanner stands between its
      walk and its cast. */
  lemma CreatedMeanwhile(a: string, c: Content, rules: set<Rule>) returns (s0: State, s: State)
    requires NoteName(a)
    ensures Initial(s0) && Reaches([], s0, s, rules)
    ensures s == State(Only(a, c), [], Reading([a], [], [], [], [], false), 0, Some(map[]), [], map[])
  {
    s0, s := RescanWalked(rules);
    s := DoCreate(s0, s, a, c, Only(a, c), rules);
    assert s.queue == [Raise(Create, [[a]])];
    s := DoCreationWindow(s0, s, a, c, rules);
    Scans(a, c);
  }

  lemma CastMeanwhile(a: string, c: Content, rules: set<Rule>) returns (s0: State, s: State)
    requires NoteName(a) && NoCastDuringRescan !in rules
    ensures Initial(s0) && Reaches([], s0, s, rules)
    ensures s == State(Only(a, c), [], Window([]), 0, None,
                       [Batch(IndexBatch([NoteAt(a, c)], [], [])), Rebuild([])], map[])
  {
    s0, s := CreatedMeanwhile(a, c, rules);
    FileIsNote(a, c);
    s := DoReadNote(s0, s, NoteAt(a, c), rules);
    s := DoCast(s0, s, rules);
    var known := Batch(IndexBatch([NoteAt(a, c)], [], []));
    assert [] + [NoteAt(a, c)] == [NoteAt(a, c)] && s.mailbox == [known];
    s := DoFinishRescan(s0, s, [], rules);
    assert s.mailbox == [known, Rebuild([])];
  }

  lemma FileIsNote(a: string, c: Content)
    requires NoteName(a)
    ensures ScanOne(Only(a, c), a) == Ok(NoteAt(a, c))
  {
    Views(a, c, a);
  }

  lemma HandledCreation(a: string, c: Content)
    ensures Handled(map[], Batch(IndexBatch([NoteAt(a, c)], [], []))) == map[a := NoteAt(a, c)]
  {
    var notes := [NoteAt(a, c)];
    assert notes[1..] == [];
    assert PutAll(map[], notes) == PutAll(map[a := notes[0]], notes[1..]);
    assert WithoutDirs(WithoutPaths(map[], []), []) == map[];
  }

  /** The batch that knows the new file is handled before the rebuild that
      does not. */
  lemma CastDuringRescanLosesNote(a: string, c: Content) returns (s0: State, s: State)
    requires NoteName(a)
    ensures EndsWrong([], s0, s, ALL_RULES - {NoCastDuringRescan}, a)
  {
    var rules := ALL_RULES - {NoCastDuringRescan};
    s0, s := CastMeanwhile(a, c, rules);
    HandledCreation(a, c);
    s := DoHandle(s0, s, rules);
    assert s.mailbox == [Rebuild([])];
    s := DoHandle(s0, s, rules);
    Views(a, c, a);
  }

  // ---- A metadata event on a directory named like a note -------------------------------------------

  /** A stored note's file gives way to a directory of the same name, and the
      directory's metadata changes, before the next window closes. */
  lemma ReplacedByFolder(a: string, c: Content, rules: set<Rule>) returns (s0: State, s: State)
    requires NoteName(a) && NoFolderMetadata !in rules
    ensures Initial(s0) && Reaches([], s0, s, rules)
    ensures s == State(OnlyFolder(a), [Raise(Remove, [[a]]), Raise(Create, [[a]]), Raise(ModifyMetadata, [[a]])],
                       Window([]), 0, None, [], map[a := NoteAt(a, c)])
  {
    s0, s := StartIndexed(a, c, rules);
    s := DoRemove(s0, s, a, c, rules);
    assert s.queue == [Raise(Remove, [[a]])];
    s := DoCreate(s0, s, a, c, OnlyFolder(a), rules);
    assert s.queue == [Raise(Remove, [[a]]), Raise(Create, [[a]])];
    s := DoTouch(s0, s, a, c, rules);
    assert s.queue == [Raise(Remove, [[a]]), Raise(Create, [[a]]), Raise(ModifyMetadata, [[a]])];
  }

  lemma FolderActions(a: string, c: Content)
    requires NoteName(a)
    ensures WindowActions(OnlyFolder(a), [], [Raise(Remove, [[a]]), Raise(Create, [[a]]), Raise(ModifyMetadata, [[a]])])
         == [Delete(a), DeleteTree(a), UpsertTree(a), Upsert(a)]
  {
    var v := OnlyFolder(a);
    var gone, came, touched := Raise(Remove, [[a]]), Raise(Create, [[a]]), Raise(ModifyMetadata, [[a]]);
    RemovedActions(a, v);
    AppearedActions(a, c);
    TouchedActions(a, v);
    WindowOfOne(v, [], gone);
    WindowOfOne(v, [], came);
    WindowOfOne(v, [], touched);
    WindowJoins(v, [], [came], [touched]);
    WindowJoins(v, [], [gone], [came] + [touched]);
    assert [gone, came, touched] == [gone] + ([came] + [touched]);
  }

  lemma TouchedActions(a: string, vault: Node)
    requires NoteName(a)
    ensures ActionsAt(vault, [], Raise(ModifyMetadata, [[a]])) == [Upsert(a)]
  {
    RelativeOfName(a);
    CollectOne([a], Modified([]));
  }

  lemma CoalescedFolder(a: string)
    ensures Coalesces([Delete(a), DeleteTree(a), UpsertTree(a), Upsert(a)], WatchBatch([a], [], [a], []))
  {
    var acts := [Delete(a), DeleteTree(a), UpsertTree(a), Upsert(a)];
    assert acts[..3] == [Delete(a), DeleteTree(a), UpsertTree(a)];
    assert acts[..3][..2] == [Delete(a), DeleteTree(a)];
    assert acts[..3][..2][..1] == [Delete(a)] && [Delete(a)][..0] == [];
    forall p ensures LastNote(acts, p) == (if p == a then Some(LastUpsert) else None)
                  && LastTree(acts, p) == (if p == a then Some(LastUpsert) else None) {
      assert LastNote([Delete(a)], p) == if p == a then Some(LastDelete) else None;
      assert LastNote(acts[..3][..2], p) == if p == a then Some(LastDelete) else None;
      assert LastNote(acts[..3], p) == if p == a then Some(LastDelete) else None;
      assert LastTree([Delete(a)], p) == None;
      assert LastTree(acts[..3][..2], p) == if p == a then Some(LastDelete) else None;
      assert LastTree(acts[..3], p) == if p == a then Some(LastUpsert) else None;
    }
  }

  lemma FolderWindow(a: string, c: Content, rules: set<Rule>) returns (s0: State, s: State)
    requires NoteName(a) && NoFolderMetadata !in rules
    ensures Initial(s0) && Reaches([], s0, s, rules)
    ensures s == State(OnlyFolder(a), [],
                       Classifying([Raise(Remove, [[a]]), Raise(Create, [[a]]), Raise(ModifyMetadata, [[a]])],
                                   [], false),
                       0, None, [], map[a := NoteAt(a, c)])
  {
    s0, s := ReplacedByFolder(a, c, rules);
    assert [] + s.queue == s.queue;
    s := DoWindow(s0, s, rules);
  }

  lemma FolderMapped(a: string, c: Content, rules: set<Rule>) returns (s0: State, s: State)
    requires NoteName(a) && NoFolderMetadata !in rules
    ensures Initial(s0) && Reaches([], s0, s, rules)
    ensures s == State(OnlyFolder(a), [], Classifying([], [Delete(a), DeleteTree(a), UpsertTree(a), Upsert(a)], false),
                       0, None, [], map[a := NoteAt(a, c)])
  {
    s0, s := FolderWindow(a, c, rules);
    FolderActions(a, c);
    s := MapsAll([], s0, s, rules);
    assert s.debouncer.actions == [Delete(a), DeleteTree(a), UpsertTree(a), Upsert(a)];
  }

  lemma FolderBatch(a: string, c: Content, rules: set<Rule>) returns (s0: State, s: State)
    requires NoteName(a) && NoFolderMetadata !in rules
    ensures Initial(s0) && Reaches([], s0, s, rules)
    ensures s == State(OnlyFolder(a), [], Reading([a], [a], [a], [], [], false), 0, None, [], map[a := NoteAt(a, c)])
  {
    s0, s := FolderMapped(a, c, rules);
    CoalescedFolder(a);
    s := DoCoalesce(s0, s, WatchBatch([a], [], [a], []), rules);
    assert [] + [a] == [a];
  }

  lemma DeletesNothing(m: NoteMap, dirs: seq<string>)
    requires forall k <- m :: !UnderAny(k, dirs)
    ensures Handled(m, Batch(IndexBatch([], [], dirs))) == m
  {
    assert WithoutPaths(m, []) == m;
    assert WithoutDirs(m, dirs) == m;
  }

  lemma HandledFolder(a: string, c: Content)
    requires ValidPath(a)
    ensures var m := map[a := NoteAt(a, c)]; Handled(m, Batch(IndexBatch([], [], [a]))) == m
  {
    NotUnderItself(a);
    assert !UnderAny(a, [a]);
    DeletesNothing(map[a := NoteAt(a, c)], [a]);
  }

  /** The directory cannot be read as a note. */
  lemma FolderRead(a: string, c: Content, rules: set<Rule>) returns (s0: State, s: State)
    requires NoteName(a) && NoFolderMetadata !in rules
    ensures Initial(s0) && Reaches([], s0, s, rules)
    ensures s == State(OnlyFolder(a), [], Reading([], [a], [a], [], [], false), 0, None, [], map[a := NoteAt(a, c)])
  {
    s0, s := FolderBatch(a, c, rules);
    Views(a, c, a);
    FolderIsNoNote(a, c);
    s := DoSkip(s0, s, rules);
    assert [a][1..] == [];
  }

  lemma FolderIsNoNote(a: string, c: Content)
    requires NoteName(a)
    ensures ScanOne(OnlyFolder(a), a) == Err(OtherFailure)
  {
    Views(a, c, a);
  }

  /** It holds no notes either. */
  lemma FolderWalked(a: string, c: Content, rules: set<Rule>) returns (s0: State, s: State)
    requires NoteName(a) && NoFolderMetadata !in rules
    ensures Initial(s0) && Reaches([], s0, s, rules)
    ensures s == State(OnlyFolder(a), [], Reading([], [], [a], [], [], false), 0, None, [], map[a := NoteAt(a, c)])
  {
    s0, s := FolderRead(a, c, rules);
    FolderHoldsNothing(a, c);
    s := DoWalk(s0, s, [], rules);
    assert s.debouncer == Reading([], [], [a], [], [], false);
  }

  lemma FolderHoldsNothing(a: string, c: Content)
    requires NoteName(a)
    ensures PutAll(map[], []) == Scanned(OnlyFolder(a), Segments(a))
  {
    Scans(a, c);
  }

  lemma FolderCast(a: string, c: Content, rules: set<Rule>) returns (s0: State, s: State)
    requires NoteName(a) && NoFolderMetadata !in rules
    ensures Initial(s0) && Reaches([], s0, s, rules)
    ensures s == State(OnlyFolder(a), [], Window([]), 0, None, [Batch(IndexBatch([], [], [a]))], map[a := NoteAt(a, c)])
  {
    s0, s := FolderWalked(a, c, rules);
    s := DoCast(s0, s, rules);
    assert s.mailbox == [Batch(IndexBatch([], [], [a]))];
  }

  /** The metadata event turns the delete into a read; reading a directory
      fails, which keeps the entry; the note outlives its file. */
  lemma FolderMetadataKeepsNote(a: string, c: Content) returns (s0: State, s: State)
    requires NoteName(a)
    ensures EndsWrong([], s0, s, ALL_RULES - {NoFolderMetadata}, a)
  {
    s0, s := FolderCast(a, c, ALL_RULES - {NoFolderMetadata});
    HandledFolder(a, c);
    s := DoHandle(s0, s, ALL_RULES - {NoFolderMetadata});
    Views(a, c, a);
  }

  // ---- A loss behind a mark ------------------------------------------------------------------------

  /** While an overflow mark is queued, a remove event is queued behind it and
      then the return of the file is lost without a mark of its own. */
  lemma LostBehindMark(a: string, c: Content, rules: set<Rule>) returns (s0: State, s: State)
    requires NoteName(a) && NoLossBehindMark !in rules
    ensures Initial(s0) && Reaches([], s0, s, rules)
    ensures s == State(Only(a, c), [OVERFLOW, Raise(Remove, [[a]])], Window([]), 0, None, [], map[a := NoteAt(a, c)])
  {
    s0, s := StartIndexed(a, c, rules);
    TreesWellFormed(a, c);
    s := DoLose(s0, s, Only(a, c), rules);
    assert s.queue == [OVERFLOW];
    s := DoRemove(s0, s, a, c, rules);
    assert s.queue == [OVERFLOW, Raise(Remove, [[a]])];
    assert s.queue[0] in s.queue && SignalsOverflow(s.queue[0]);
    s := Do([], s0, s, Lose(Only(a, c), false), rules);
  }

  /** The mark gets a window of its own. */
  lemma MarkAlone(a: string, c: Content, rules: set<Rule>) returns (s0: State, s: State)
    requires NoteName(a) && NoLossBehindMark !in rules
    ensures Initial(s0) && Reaches([], s0, s, rules)
    ensures s == State(Only(a, c), [Raise(Remove, [[a]])], Classifying([], [], true), 0, None, [],
                       map[a := NoteAt(a, c)])
  {
    s0, s := LostBehindMark(a, c, rules);
    s := Do([], s0, s, Deliver, rules);
    assert s.debouncer == Window([OVERFLOW]) && s.queue == [Raise(Remove, [[a]])];
    s := Do([], s0, s, CloseWindow, rules);
    WindowOfOne(Only(a, c), [], OVERFLOW);
    s := MapsAll([], s0, s, rules);
  }

  lemma RescanDue(a: string, c: Content, rules: set<Rule>) returns (s0: State, s: State)
    requires NoteName(a) && NoLossBehindMark !in rules
    ensures Initial(s0) && Reaches([], s0, s, rules)
    ensures s == State(Only(a, c), [Raise(Remove, [[a]])], Window([]), 1, None, [], map[a := NoteAt(a, c)])
  {
    s0, s := MarkAlone(a, c, rules);
    assert Coalesces([], WatchBatch([], [], [], []));
    s := DoCoalesce(s0, s, WatchBatch([], [], [], []), rules);
  }

  lemma ScannedOnly(a: string, c: Content)
    requires NoteName(a)
    ensures Scanned(Only(a, c), []) == PutAll(map[], [NoteAt(a, c)])
  {
    Scans(a, c);
    HandledRemoval(a, c);
  }

  /** Its rescan sees the file. */
  lemma RescanBehindMark(a: string, c: Content, rules: set<Rule>) returns (s0: State, s: State)
    requires NoteName(a) && NoLossBehindMark !in rules
    ensures Initial(s0) && Reaches([], s0, s, rules)
    ensures s == State(Only(a, c), [Raise(Remove, [[a]])], Window([]), 0, None, [Rebuild([NoteAt(a, c)])],
                       map[a := NoteAt(a, c)])
  {
    s0, s := RescanDue(a, c, rules);
    s := DoStartRescan(s0, s, rules);
    ScannedOnly(a, c);
    s := DoFinishRescan(s0, s, [NoteAt(a, c)], rules);
    assert s.mailbox == [Rebuild([NoteAt(a, c)])];
  }

  lemma RemovalBehindMark(a: string, c: Content, rules: set<Rule>) returns (s0: State, s: State)
    requires NoteName(a) && NoLossBehindMark !in rules
    ensures Initial(s0) && Reaches([], s0, s, rules)
    ensures s == State(Only(a, c), [], Classifying([], [Delete(a), DeleteTree(a)], false), 0, None,
                       [Rebuild([NoteAt(a, c)])], map[a := NoteAt(a, c)])
  {
    s0, s := RescanBehindMark(a, c, rules);
    assert [] + s.queue == s.queue;
    s := DoWindow(s0, s, rules);
    RemovedActions(a, Only(a, c));
    WindowOfOne(Only(a, c), [], Raise(Remove, [[a]]));
    s := MapsAll([], s0, s, rules);
    assert s.debouncer.actions == [Delete(a), DeleteTree(a)];
  }

  lemma CastBehindMark(a: string, c: Content, rules: set<Rule>) returns (s0: State, s: State)
    requires NoteName(a) && NoLossBehindMark !in rules
    ensures Initial(s0) && Reaches([], s0, s, rules)
    ensures s == State(Only(a, c), [], Window([]), 0, None,
                       [Rebuild([NoteAt(a, c)]), Batch(IndexBatch([], [a], [a]))], map[a := NoteAt(a, c)])
  {
    s0, s := RemovalBehindMark(a, c, rules);
    CoalescedRemoval(a);
    s := DoCoalesce(s0, s, WatchBatch([], [a], [], [a]), rules);
    assert [a] + [] == [a];
    s := DoCast(s0, s, rules);
    assert s.mailbox == [Rebuild([NoteAt(a, c)]), Batch(IndexBatch([], [a], [a]))];
  }

  /** The stale delete lands after the rebuild. */
  lemma LossBehindMarkLosesNote(a: string, c: Content) returns (s0: State, s: State)
    requires NoteName(a)
    ensures EndsWrong([], s0, s, ALL_RULES - {NoLossBehindMark}, a)
  {
    var rules := ALL_RULES - {NoLossBehindMark};
    s0, s := CastBehindMark(a, c, rules);
    HandledRemoval(a, c);
    s := DoHandle(s0, s, rules);
    assert s.mailbox == [Batch(IndexBatch([], [a], [a]))];
    s := DoHandle(s0, s, rules);
    Views(a, c, a);
  }

  // ---- Which rules suffice --------------------------------------------------------------------------

  /** Every run under these rules that comes to rest leaves store and vault in
      agreement on every path. */
  ghost predicate Suffice(rules: set<Rule>) {
    forall root, s0, steps, path | Initial(s0) && RunUnder(root, s0, steps, rules) && Run(root, s0, steps)
        && Quiescent(After(root, s0, steps)) ::
      Agrees(After(root, s0, steps).vault, After(root, s0, steps).store, path)
  }

  lemma {:induction false} FewerRules(root: seq<string>, s: State, steps: seq<Step>, rules: set<Rule>, more: set<Rule>)
    requires rules <= more && RunUnder(root, s, steps, more)
    ensures RunUnder(root, s, steps, rules)
    decreases |steps|
  {
    if steps != [] {
      FewerRules(root, Next(root, s, steps[0]), steps[1..], rules, more);
    }
  }

  lemma WrongWithout(rule: Rule) returns (s0: State, s: State)
    ensures EndsWrong([], s0, s, ALL_RULES - {rule}, "a.md")
  {
    SomeNoteName();
    var c := Content(map[], "", "", 0, "", 0, false);
    match rule {
      case RescanAfterBatch => s0, s := RescanBeforeBatchLosesNote("a.md", c);
      case NoCastDuringRescan => s0, s := CastDuringRescanLosesNote("a.md", c);
      case NoFolderMetadata => s0, s := FolderMetadataKeepsNote("a.md", c);
      case NoLossBehindMark => s0, s := LossBehindMarkLosesNote("a.md", c);
    }
  }

  lemma QuietAgrees(root: seq<string>, s0: State, steps: seq<Step>, path: string)
    requires Initial(s0) && OrderlyRun(root, s0, steps) && Run(root, s0, steps)
    requires Quiescent(After(root, s0, steps))
    ensures Agrees(After(root, s0, steps).vault, After(root, s0, steps).store, path)
  {
    DisagreementIsCovered(root, s0, steps, path);
  }

  /** Convergence needs the four rules and no more: a set of rules suffices
      exactly when it has them all. */
  lemma RulesExactly(rules: set<Rule>)
    ensures Suffice(rules) <==> rules == ALL_RULES
  {
    if rules == ALL_RULES {
      forall root, s0, steps, path | Initial(s0) && RunUnder(root, s0, steps, rules) && Run(root, s0, steps)
          && Quiescent(After(root, s0, steps))
        ensures Agrees(After(root, s0, steps).vault, After(root, s0, steps).store, path)
      {
        QuietAgrees(root, s0, steps, path);
      }
    } else {
      MissingRuleFails(rules);
    }
  }

  lemma SomeRuleMissing(rules: set<Rule>) returns (rule: Rule)
    requires rules != ALL_RULES
    ensures rules <= ALL_RULES - {rule}
  {
    forall r: Rule ensures r in ALL_RULES {
      match r { case RescanAfterBatch => case NoCastDuringRescan => case NoFolderMetadata => case NoLossBehindMark => }
    }
    rule :| rule in ALL_RULES && rule !in rules;
  }

  lemma MissingRuleFails(rules: set<Rule>)
    requires rules != ALL_RULES
    ensures !Suffice(rules)
  {
    var rule := SomeRuleMissing(rules);
    var s0, s := WrongWithout(rule);
    var steps :| RunUnder([], s0, steps, ALL_RULES - {rule}) && Run([], s0, steps) && After([], s0, steps) == s;
    FewerRules([], s0, steps, rules, ALL_RULES - {rule});
  }
}
