/** Cutting the stream of native events, on a vault that stands still. */
module EventCuts {
  import opened Text
  import opened Paths
  import opened Notes
  import opened Store
  import opened Vault
  import opened Watcher
  import opened Protocol
  import opened Convergence
  import opened Changes
  import opened Safety
  import opened Windows
  import opened Cuts
  import opened Runs

  function MapWindows(vault: Node, root: seq<string>, windows: seq<seq<Notify>>): seq<seq<WatchAction>> {
    if windows == [] then []
    else [WindowActions(vault, root, windows[0])] + MapWindows(vault, root, windows[1..])
  }

  /** Whatever the store held, every way of cutting the events into windows
      leaves the same at this path. */
  ghost predicate EventCutsAgree(vault: Node, root: seq<string>, events: seq<Notify>, path: string) {
    forall m: NoteMap, cut, other | Flatten(cut) == events && Flatten(other) == events ::
      At(RunWindows(vault, m, MapWindows(vault, root, cut)), path)
      == At(RunWindows(vault, m, MapWindows(vault, root, other)), path)
  }

  /** The last action about the path is a delete, but an upsert on another
      subject survives beside it. */
  ghost predicate SoftDelete(actions: seq<WatchAction>, path: string) {
    var i := LastIndex(actions, IsAbout(path));
    i >= 0 && !Upserts(actions[i]) && UpsertSurvives(actions, path)
  }

  // ---- Streams that never walk the path itself ----------------------------------------------

  lemma SameBearing(actions: seq<WatchAction>, path: string)
    requires UpsertTree(path) !in actions
    ensures LastIndex(actions, IsBearing(path)) == LastIndex(actions, IsAbout(path))
  {
    var i := LastIndex(actions, IsAbout(path));
    forall n | i < n < |actions| ensures !IsBearing(path)(actions[n]) {
      assert !IsAbout(path)(actions[n]) && actions[n] in actions;
    }
    if i >= 0 { assert IsAbout(path)(actions[i]); }
    OnlyLast(actions, IsBearing(path), i);
  }

  lemma SurvivesAfter(a: seq<WatchAction>, b: seq<WatchAction>, path: string)
    requires UpsertSurvives(a, path) && UpsertTree(path) !in a && !Touched(b, path)
    ensures UpsertSurvives(a + b, path)
  {
    Unspoken(b, path);
    LastConcat(a, b, path);
    LastUpsertNamed(a, path);
    if d :| Inside(path, d) && LastTree(a, d) == Some(LastUpsert) {
      LastConcat(a, b, d);
    }
  }

  lemma PlainlyMatters(actions: seq<WatchAction>, path: string)
    requires UpsertTree(path) !in actions
    ensures ReadableMatters(actions, path) <==> SoftDelete(actions, path)
  {
    SameBearing(actions, path);
    var i := LastIndex(actions, IsAbout(path));
    if i >= 0 && !Upserts(actions[i]) {
      var early, rest := actions[..i + 1], actions[i + 1..];
      assert actions == early + rest;
      AfterLast(actions, path);
      if UpsertSurvives(early, path) { SurvivesAfter(early, rest, path); }
      if UpsertSurvives(actions, path) { SurvivedBefore(early, rest, path); }
    } else if i >= 0 {
      assert actions[i] in actions;
    }
  }

  lemma MapTwo(vault: Node, root: seq<string>, a: seq<Notify>)
    ensures Flatten([a]) == a && MapWindows(vault, root, [a]) == [WindowActions(vault, root, a)]
  {
    assert [a][1..] == [] && a + [] == a;
  }

  lemma MapThree(vault: Node, root: seq<string>, a: seq<Notify>, b: seq<Notify>, c: seq<Notify>)
    ensures Flatten([a, b, c]) == a + b + c
    ensures MapWindows(vault, root, [a, b, c])
         == [WindowActions(vault, root, a), WindowActions(vault, root, b), WindowActions(vault, root, c)]
  {
    MapTwo(vault, root, c);
    assert [a, b, c][1..] == [b, c] && [b, c][1..] == [c];
    assert a + (b + c) == a + b + c;
  }

  // ---- What events are mapped to ---------------------------------------------------------------

  /** Every action stands for one of the event's paths. */
  lemma ActionSource(vault: Node, root: seq<string>, n: Notify, a: WatchAction)
    requires Proper(root, n) && a in ActionsAt(vault, root, n)
    ensures exists abs :: CleanPath(root, abs)
              && (a in Modified(root)(abs) || a in Appeared(vault, root)(abs) || a in Vanished(root)(abs))
  {
    var paths := n.event.paths;
    match Classify(n.event.kind).value {
      case Modify => CollectMember(paths, Modified(root), a);
      case Appear => CollectMember(paths, Appeared(vault, root), a);
      case Vanish => CollectMember(paths, Vanished(root), a);
      case Rename =>
    }
  }

  /** On a standing vault a note file is never walked as a directory. */
  lemma NoWalkOfFile(vault: Node, root: seq<string>, n: Notify, path: string)
    requires Proper(root, n) && IndexedNote(vault, path).Some?
    ensures UpsertTree(path) !in ActionsAt(vault, root, n)
  {
    if UpsertTree(path) in ActionsAt(vault, root, n) {
      ActionSource(vault, root, n, UpsertTree(path));
      var abs :| CleanPath(root, abs) && UpsertTree(path) in Appeared(vault, root)(abs);
      SegmentsOfPath(abs[|root|..]);
    }
  }

  lemma WindowMember(vault: Node, root: seq<string>, events: seq<Notify>, a: WatchAction)
    ensures a in WindowActions(vault, root, events) <==> exists n <- events :: a in ActionsAt(vault, root, n)
  {
    CollectMember(events, Mapped(vault, root), a);
    forall n | n in events ensures a in Mapped(vault, root)(n) <==> a in ActionsAt(vault, root, n) {}
  }

  lemma StreamIsPlain(vault: Node, root: seq<string>, events: seq<Notify>, path: string)
    requires ProperAll(root, events)
    ensures forall a <- WindowActions(vault, root, events) :: Clean(a)
    ensures IndexedNote(vault, path).Some? ==> UpsertTree(path) !in WindowActions(vault, root, events)
  {
    forall a | a in WindowActions(vault, root, events)
      ensures Clean(a) && (IndexedNote(vault, path).Some? ==> a != UpsertTree(path))
    {
      WindowMember(vault, root, events, a);
      var n :| n in events && a in ActionsAt(vault, root, n);
      CleanActions(vault, root, n);
      if IndexedNote(vault, path).Some? { NoWalkOfFile(vault, root, n, path); }
    }
  }

  lemma {:induction false} MappedFlat(vault: Node, root: seq<string>, cut: seq<seq<Notify>>)
    ensures Flatten(MapWindows(vault, root, cut)) == WindowActions(vault, root, Flatten(cut))
  {
    if cut != [] {
      MappedFlat(vault, root, cut[1..]);
      WindowJoins(vault, root, cut[0], Flatten(cut[1..]));
      assert MapWindows(vault, root, cut)[1..] == MapWindows(vault, root, cut[1..]);
    }
  }

  // ---- Where the delete stands in its event -----------------------------------------------------

  /** First deletes, then upserts. */
  predicate DeletesFirst(actions: seq<WatchAction>) {
    forall i, j | 0 <= i < j < |actions| :: Upserts(actions[i]) ==> Upserts(actions[j])
  }

  lemma {:induction false} CollectOfKind(paths: seq<seq<string>>, f: seq<string> -> seq<WatchAction>, up: bool)
    requires forall abs <- paths :: forall a <- f(abs) :: Upserts(a) == up
    ensures forall a <- Collect(paths, f) :: Upserts(a) == up
  {
    if paths != [] { CollectOfKind(paths[1..], f, up); }
  }

  lemma MappedKinds(vault: Node, root: seq<string>, abs: seq<string>)
    ensures forall a <- Modified(root)(abs) :: Upserts(a)
    ensures forall a <- Appeared(vault, root)(abs) :: Upserts(a)
    ensures forall a <- Vanished(root)(abs) :: !Upserts(a)
  {
    assert Appeared(vault, root)(abs) == Modified(root)(abs) || |Appeared(vault, root)(abs)| <= 1;
  }

  lemma DeletesThenUpserts(gone: seq<WatchAction>, came: seq<WatchAction>)
    requires (forall a <- gone :: !Upserts(a)) && forall a <- came :: Upserts(a)
    ensures DeletesFirst(gone + came)
  {
    var all := gone + came;
    forall i, j | 0 <= i < j < |all| ensures Upserts(all[i]) ==> Upserts(all[j]) {
      if j < |gone| {
        assert all[i] == gone[i];
      } else {
        assert all[j] == came[j - |gone|];
      }
    }
  }

  lemma MappedDeletesFirst(vault: Node, root: seq<string>, n: Notify)
    requires Proper(root, n)
    ensures DeletesFirst(ActionsAt(vault, root, n))
  {
    if n.Delivered? && !IsOverflow(n.event) && Classify(n.event.kind).Some? {
      var paths := n.event.paths;
      match Classify(n.event.kind).value {
        case Modify =>
          forall abs ensures forall a <- Modified(root)(abs) :: Upserts(a) { MappedKinds(vault, root, abs); }
          CollectOfKind(paths, Modified(root), true);
        case Appear =>
          forall abs ensures forall a <- Appeared(vault, root)(abs) :: Upserts(a) { MappedKinds(vault, root, abs); }
          CollectOfKind(paths, Appeared(vault, root), true);
        case Vanish =>
          forall abs ensures forall a <- Vanished(root)(abs) :: !Upserts(a) { MappedKinds(vault, root, abs); }
          CollectOfKind(paths, Vanished(root), false);
        case Rename =>
          if |paths| > 0 { MappedKinds(vault, root, paths[0]); }
          if |paths| > 1 { MappedKinds(vault, root, paths[1]); }
          DeletesThenUpserts(if |paths| > 0 then Vanished(root)(paths[0]) else [],
                             if |paths| > 1 then Appeared(vault, root)(paths[1]) else []);
      }
    }
  }

  /** So an event whose last word on the path is a delete only deletes it. */
  lemma OnlyDeletes(actions: seq<WatchAction>, path: string)
    requires DeletesFirst(actions) && UpsertTree(path) !in actions
    requires var i := LastIndex(actions, IsAbout(path)); i >= 0 && !Upserts(actions[i])
    ensures Touched(actions, path) && !UpsertSurvives(actions, path)
  {
    var i := LastIndex(actions, IsAbout(path));
    AfterLast(actions, path);
    assert actions[i] in actions;
    forall n | i < n < |actions| ensures !About(actions[n], path) { assert actions[n] in actions[i + 1..]; }
    forall a | a in actions && About(a, path) ensures !Upserts(a) {
      var k :| 0 <= k < |actions| && actions[k] == a;
    }
    LastUpsertNamed(actions, path);
    forall d | Inside(path, d) ensures LastTree(actions, d) != Some(LastUpsert) { LastUpsertNamed(actions, d); }
  }

  /** The last event that touches the path. */
  lemma {:induction false} LastTouching(vault: Node, root: seq<string>, events: seq<Notify>, path: string)
    returns (k: nat)
    requires Touched(WindowActions(vault, root, events), path)
    ensures k < |events| && Touched(ActionsAt(vault, root, events[k]), path)
    ensures !Touched(WindowActions(vault, root, events[k + 1..]), path)
    decreases |events|
  {
    var init, last := events[..|events| - 1], [events[|events| - 1]];
    assert events == init + last;
    WindowJoins(vault, root, init, last);
    WindowOfOne(vault, root, last[0]);
    TouchedConcat(WindowActions(vault, root, init), ActionsAt(vault, root, last[0]), path);
    if Touched(ActionsAt(vault, root, last[0]), path) {
      k := |events| - 1;
      assert events[k + 1..] == [];
    } else {
      k := LastTouching(vault, root, init, path);
      assert events[k + 1..] == init[k + 1..] + last;
      WindowJoins(vault, root, init[k + 1..], last);
      TouchedConcat(WindowActions(vault, root, init[k + 1..]), ActionsAt(vault, root, last[0]), path);
    }
  }

  // ---- A path where something cannot be read ---------------------------------------------------------

  /** A rename has two different ends. */
  predicate DistinctEnds(n: Notify) {
    n.Delivered? && Classify(n.event.kind) == Some(Rename) && |n.event.paths| > 1 ==>
      n.event.paths[0] != n.event.paths[1]
  }

  lemma SameNote(root: seq<string>, f: seq<string>, t: seq<string>, path: string)
    requires CleanPath(root, f) && CleanPath(root, t)
    requires NoteRelative(root, f) == Some(path) && NoteRelative(root, t) == Some(path)
    ensures f == t
  {
    SegmentsOfPath(f[|root|..]);
    SegmentsOfPath(t[|root|..]);
    assert f == root + f[|root|..] && t == root + t[|root|..];
  }

  lemma OfKind(vault: Node, root: seq<string>, n: Notify, path: string)
    requires Proper(root, n) && Delete(path) in ActionsAt(vault, root, n)
    ensures Classify(n.event.kind) == Some(Vanish) || Classify(n.event.kind) == Some(Rename)
    ensures Classify(n.event.kind) == Some(Vanish) ==> Upsert(path) !in ActionsAt(vault, root, n)
  {
    var paths := n.event.paths;
    match Classify(n.event.kind).value {
      case Modify =>
        forall abs ensures forall a <- Modified(root)(abs) :: Upserts(a) { MappedKinds(vault, root, abs); }
        CollectOfKind(paths, Modified(root), true);
      case Appear =>
        forall abs ensures forall a <- Appeared(vault, root)(abs) :: Upserts(a) { MappedKinds(vault, root, abs); }
        CollectOfKind(paths, Appeared(vault, root), true);
      case Vanish =>
        forall abs ensures forall a <- Vanished(root)(abs) :: !Upserts(a) { MappedKinds(vault, root, abs); }
        CollectOfKind(paths, Vanished(root), false);
      case Rename =>
    }
  }

  lemma NamedByEnds(vault: Node, root: seq<string>, f: seq<string>, t: seq<string>, path: string)
    ensures Delete(path) in Vanished(root)(f) ==> NoteRelative(root, f) == Some(path)
    ensures Upsert(path) in Appeared(vault, root)(t) ==> NoteRelative(root, t) == Some(path)
  {
    if IsDirAt(vault, root, t) {
      assert Upsert(path) !in Appeared(vault, root)(t);
    } else {
      assert Appeared(vault, root)(t) == Modified(root)(t);
    }
  }

  /** One event does not both delete and upsert a note. */
  lemma NotBoth(vault: Node, root: seq<string>, n: Notify, path: string)
    requires Proper(root, n) && DistinctEnds(n) && Delete(path) in ActionsAt(vault, root, n)
    ensures Upsert(path) !in ActionsAt(vault, root, n)
  {
    OfKind(vault, root, n, path);
    var paths := n.event.paths;
    if Classify(n.event.kind) == Some(Rename) && |paths| > 1 && Upsert(path) in ActionsAt(vault, root, n) {
      MappedKinds(vault, root, paths[0]);
      MappedKinds(vault, root, paths[1]);
      NamedByEnds(vault, root, paths[0], paths[1], path);
      SameNote(root, paths[0], paths[1], path);
    }
  }

  /** A window for the event that deletes the path removes it. */
  lemma FailingCuts(vault: Node, root: seq<string>, events: seq<Notify>, path: string, before: Option<Note>)
    returns (cut: seq<seq<Notify>>)
    requires ProperAll(root, events) && forall n <- events :: DistinctEnds(n)
    requires IndexedNote(vault, path).None? && Delete(path) in WindowActions(vault, root, events)
    ensures Flatten(cut) == events
    ensures WindowsAt(vault, MapWindows(vault, root, cut), path, before) == None
  {
    WindowMember(vault, root, events, Delete(path));
    var k :| 0 <= k < |events| && Delete(path) in ActionsAt(vault, root, events[k]);
    NotBoth(vault, root, events[k], path);
    cut := DeletingEvent(vault, root, events, k, path, before);
  }

  lemma DeletingEvent(vault: Node, root: seq<string>, events: seq<Notify>, k: nat, path: string, before: Option<Note>)
    returns (cut: seq<seq<Notify>>)
    requires k < |events| && IndexedNote(vault, path).None?
    requires Delete(path) in ActionsAt(vault, root, events[k]) && Upsert(path) !in ActionsAt(vault, root, events[k])
    ensures Flatten(cut) == events
    ensures WindowsAt(vault, MapWindows(vault, root, cut), path, before) == None
  {
    var x, n, y := events[..k], events[k], events[k + 1..];
    assert events == x + [n] + y;
    cut := [x, [n], y];
    MapThree(vault, root, x, [n], y);
    WindowOfOne(vault, root, n);
    DeletedInEvent(vault, WindowActions(vault, root, x), ActionsAt(vault, root, n), WindowActions(vault, root, y),
                   path, before);
  }

  lemma DeletedInEvent(vault: Node, x: seq<WatchAction>, a: seq<WatchAction>, y: seq<WatchAction>, path: string,
    before: Option<Note>)
    requires IndexedNote(vault, path).None? && Delete(path) in a && Upsert(path) !in a
    ensures WindowsAt(vault, [x, a, y], path, before) == None
  {
    ThreeWindows(vault, x, a, y, path, before);
    NamedHasLast(a, Delete(path));
    LastUpsertNamed(a, path);
    SomeLast(LastNote(a, path).value);
  }

  // ---- The exact condition --------------------------------------------------------------------------

  lemma LastWordIn(x: seq<WatchAction>, a: seq<WatchAction>, y: seq<WatchAction>, path: string)
    requires Touched(a, path) && !Touched(y, path)
    ensures LastIndex(x + a + y, IsAbout(path)) == |x| + LastIndex(a, IsAbout(path))
    ensures LastIndex(a, IsAbout(path)) >= 0
  {
    NoIndex(a, path);
    NoIndex(y, path);
    LastIndexConcat(x + a, y, IsAbout(path));
    LastIndexConcat(x, a, IsAbout(path));
  }

  /** The event with the last word on the path, the events before it and
      those after it. */
  lemma SoftDeleteIn(vault: Node, root: seq<string>, events: seq<Notify>, path: string)
    returns (x: seq<Notify>, n: Notify, y: seq<Notify>)
    requires ProperAll(root, events) && IndexedNote(vault, path).Some?
    requires SoftDelete(WindowActions(vault, root, events), path)
    ensures events == x + [n] + y
    ensures Touched(ActionsAt(vault, root, n), path) && !UpsertSurvives(ActionsAt(vault, root, n), path)
    ensures forall a <- WindowActions(vault, root, y) :: !Bears(a, path)
  {
    NoIndex(WindowActions(vault, root, events), path);
    x, n, y := LastWordSplits(vault, root, events, path);
    var early, a, late := WindowActions(vault, root, x), ActionsAt(vault, root, n), WindowActions(vault, root, y);
    StreamIsPlain(vault, root, y, path);
    NoWalkOfFile(vault, root, n, path);
    MappedDeletesFirst(vault, root, n);
    SoftOnlyAround(early, a, late, path);
    NothingBears(late, path);
  }

  lemma SoftOnlyAround(x: seq<WatchAction>, a: seq<WatchAction>, y: seq<WatchAction>, path: string)
    requires SoftDelete(x + a + y, path) && Touched(a, path) && !Touched(y, path)
    requires DeletesFirst(a) && UpsertTree(path) !in a
    ensures !UpsertSurvives(a, path)
  {
    LastWordIn(x, a, y, path);
    var i := LastIndex(a, IsAbout(path));
    assert (x + a + y)[|x| + i] == a[i];
    OnlyDeletes(a, path);
  }

  lemma NothingBears(actions: seq<WatchAction>, path: string)
    requires !Touched(actions, path) && UpsertTree(path) !in actions
    ensures forall a <- actions :: !Bears(a, path)
  {
  }

  lemma LastWordSplits(vault: Node, root: seq<string>, events: seq<Notify>, path: string)
    returns (x: seq<Notify>, n: Notify, y: seq<Notify>)
    requires Touched(WindowActions(vault, root, events), path)
    ensures events == x + [n] + y
    ensures WindowActions(vault, root, events)
         == WindowActions(vault, root, x) + ActionsAt(vault, root, n) + WindowActions(vault, root, y)
    ensures Touched(ActionsAt(vault, root, n), path) && !Touched(WindowActions(vault, root, y), path)
  {
    var k := LastTouching(vault, root, events, path);
    x, n, y := events[..k], events[k], events[k + 1..];
    assert events == x + [n] + y;
    WindowJoins(vault, root, x + [n], y);
    WindowJoins(vault, root, x, [n]);
    WindowOfOne(vault, root, n);
  }

  /** One window for all events keeps the note, a window for the event with
      the last word loses it. */
  lemma SoftDeleteCuts(vault: Node, root: seq<string>, events: seq<Notify>, path: string)
    returns (cut: seq<seq<Notify>>, other: seq<seq<Notify>>)
    requires ProperAll(root, events) && IndexedNote(vault, path).Some?
    requires SoftDelete(WindowActions(vault, root, events), path)
    ensures Flatten(cut) == events && Flatten(other) == events
    ensures WindowsAt(vault, MapWindows(vault, root, cut), path, None) == IndexedNote(vault, path)
    ensures WindowsAt(vault, MapWindows(vault, root, other), path, None) == None
  {
    var x, n, y := SoftDeleteIn(vault, root, events, path);
    var all := WindowActions(vault, root, events);
    var early, late := WindowActions(vault, root, x), WindowActions(vault, root, y);
    cut, other := [events], [x, [n], y];
    MapTwo(vault, root, events);
    OneWindowOnly(vault, all, path, None);
    ReadableWindow(vault, all, path, None);
    MapThree(vault, root, x, [n], y);
    WindowOfOne(vault, root, n);
    ThreeWindows(vault, early, ActionsAt(vault, root, n), late, path, None);
    ReadableWindow(vault, ActionsAt(vault, root, n), path, WindowAt(vault, early, path, None));
    IdleWindow(vault, late, path, None);
  }

  ghost predicate EventCutsMatter(vault: Node, actions: seq<WatchAction>, path: string) {
    if IndexedNote(vault, path).Some? then SoftDelete(actions, path)
    else !Absent(vault, path) && FailingMatters(actions, path)
  }

  /** For every stream of paired events on a standing vault and every path: all
      ways of cutting the stream into windows agree on the path, whatever the
      store held, exactly unless this condition holds of its actions. */
  lemma EventCutsAgreeExactly(vault: Node, root: seq<string>, events: seq<Notify>, path: string)
    requires vault.Dir? && WellFormed(vault) && ProperAll(root, events) && forall n <- events :: DistinctEnds(n)
    ensures EventCutsAgree(vault, root, events, path)
       <==> !EventCutsMatter(vault, WindowActions(vault, root, events), path)
  {
    var actions := WindowActions(vault, root, events);
    StreamIsPlain(vault, root, events, path);
    if IndexedNote(vault, path).Some? { PlainlyMatters(actions, path); }
    if !EventCutsMatter(vault, actions, path) {
      EventCutsFollow(vault, root, events, path);
    } else if IndexedNote(vault, path).Some? {
      var cut, other := SoftDeleteCuts(vault, root, events, path);
      EventCutsDiffer(vault, root, events, path, cut, other, map[]);
    } else {
      FailingEventsDiffer(vault, root, events, path);
    }
  }

  lemma FailingEventsDiffer(vault: Node, root: seq<string>, events: seq<Notify>, path: string)
    requires vault.Dir? && WellFormed(vault) && ProperAll(root, events) && forall n <- events :: DistinctEnds(n)
    requires IndexedNote(vault, path).None? && !Absent(vault, path)
    requires FailingMatters(WindowActions(vault, root, events), path)
    ensures !EventCutsAgree(vault, root, events, path)
  {
    var note := NoteAt(path, Content(map[], "", "", 0, "", 0, false));
    var m: NoteMap := map[path := note];
    var other := FailingCuts(vault, root, events, path, Some(note));
    MapTwo(vault, root, events);
    OneWindowOnly(vault, WindowActions(vault, root, events), path, Some(note));
    FailingKept(vault, WindowActions(vault, root, events), path, Some(note));
    EventCutsDiffer(vault, root, events, path, [events], other, m);
  }

  lemma EventCutsDiffer(vault: Node, root: seq<string>, events: seq<Notify>, path: string,
    cut: seq<seq<Notify>>, other: seq<seq<Notify>>, m: NoteMap)
    requires vault.Dir? && WellFormed(vault) && ProperAll(root, events)
    requires Flatten(cut) == events && Flatten(other) == events
    requires WindowsAt(vault, MapWindows(vault, root, cut), path, At(m, path))
          != WindowsAt(vault, MapWindows(vault, root, other), path, At(m, path))
    ensures !EventCutsAgree(vault, root, events, path)
  {
    StreamIsPlain(vault, root, events, path);
    MappedFlat(vault, root, cut);
    MappedFlat(vault, root, other);
    RunWindowsAt(vault, m, MapWindows(vault, root, cut), path);
    RunWindowsAt(vault, m, MapWindows(vault, root, other), path);
    assert At(RunWindows(vault, m, MapWindows(vault, root, cut)), path)
        != At(RunWindows(vault, m, MapWindows(vault, root, other)), path);
  }

  lemma EventCutsFollow(vault: Node, root: seq<string>, events: seq<Notify>, path: string)
    requires vault.Dir? && WellFormed(vault) && ProperAll(root, events)
    requires !CutsMatter(vault, WindowActions(vault, root, events), path)
    ensures EventCutsAgree(vault, root, events, path)
  {
    var actions := WindowActions(vault, root, events);
    StreamIsPlain(vault, root, events, path);
    CutsAgreeExactly(vault, actions, path);
    forall m: NoteMap, cut, other | Flatten(cut) == events && Flatten(other) == events
      ensures At(RunWindows(vault, m, MapWindows(vault, root, cut)), path)
           == At(RunWindows(vault, m, MapWindows(vault, root, other)), path)
    {
      MappedFlat(vault, root, cut);
      MappedFlat(vault, root, other);
    }
  }

  /** In particular cutting does not matter to a note no delete of which, or
      of a directory above which, is the last word on its subject. */
  lemma TruthfulCutsAgree(vault: Node, root: seq<string>, events: seq<Notify>, path: string)
    requires vault.Dir? && WellFormed(vault) && ProperAll(root, events) && forall n <- events :: DistinctEnds(n)
    requires IndexedNote(vault, path).Some?
    requires var actions := WindowActions(vault, root, events);
             && LastNote(actions, path) != Some(LastDelete)
             && forall d | Under(path, d) :: LastTree(actions, d) != Some(LastDelete)
    ensures EventCutsAgree(vault, root, events, path)
  {
    var actions := WindowActions(vault, root, events);
    var i := LastIndex(actions, IsAbout(path));
    if i >= 0 && !Upserts(actions[i]) { DeleteIsLastWord(actions, path); }
    EventCutsAgreeExactly(vault, root, events, path);
  }

  lemma DeleteIsLastWord(actions: seq<WatchAction>, path: string)
    requires var i := LastIndex(actions, IsAbout(path)); i >= 0 && !Upserts(actions[i])
    ensures LastNote(actions, path) == Some(LastDelete)
            || exists d :: Under(path, d) && LastTree(actions, d) == Some(LastDelete)
  {
    var i := LastIndex(actions, IsAbout(path));
    var a, rest := actions[i], actions[i + 1..];
    AfterLast(actions, path);
    Unspoken(rest, path);
    var name := if a.Delete? then a.path else a.dir;
    assert actions == (actions[..i] + [a]) + rest;
    LastConcat(actions[..i] + [a], rest, name);
    LastConcat(actions[..i], [a], name);
    LastOfOne(a, name);
  }

  // ---- An example ------------------------------------------------------------------------------------

  /** A directory comes in with a note, and a remove event that is no longer
      true names the note: cutting between the two loses the note. */
  lemma FalseDeleteMatters(vault: Node, root: seq<string>, d: string, path: string)
    requires vault.Dir? && WellFormed(vault) && IndexedNote(vault, path).Some?
    requires ValidPath(d) && Visible(d) && ValidPath(path) && Under(path, d) && ViewAt(vault, d).Folder?
    ensures var came, gone := Raise(Create, [Absolute(root, d)]), Raise(Remove, [Absolute(root, path)]);
            ProperAll(root, [came, gone]) && !EventCutsAgree(vault, root, [came, gone], path)
  {
    var came, gone := Raise(Create, [Absolute(root, d)]), Raise(Remove, [Absolute(root, path)]);
    ComesAndGoes(vault, root, d, path);
    var actions := [UpsertTree(d), Delete(path), DeleteTree(path)];
    UnderIsProperPrefix(path, path);
    UnderIsProperPrefix(path, d);
    assert IsAbout(path)(actions[1]) && !IsAbout(path)(actions[2]);
    OnlyLast(actions, IsAbout(path), 1);
    LastWalked(d, path);
    EventCutsAgreeExactly(vault, root, [came, gone], path);
  }

  lemma ComesAndGoes(vault: Node, root: seq<string>, d: string, path: string)
    requires ValidPath(d) && Visible(d) && ViewAt(vault, d).Folder?
    requires ValidPath(path) && Visible(path) && IsMarkdown(path)
    ensures var came, gone := Raise(Create, [Absolute(root, d)]), Raise(Remove, [Absolute(root, path)]);
            && ProperAll(root, [came, gone])
            && WindowActions(vault, root, [came, gone]) == [UpsertTree(d), Delete(path), DeleteTree(path)]
  {
    var came, gone := Raise(Create, [Absolute(root, d)]), Raise(Remove, [Absolute(root, path)]);
    RelativeOf(root, d);
    RelativeOf(root, path);
    IsDirIsFolder(vault, root, d);
    CollectOne(Absolute(root, d), Appeared(vault, root));
    CollectOne(Absolute(root, path), Vanished(root));
    WindowOfOne(vault, root, came);
    WindowOfOne(vault, root, gone);
    WindowJoins(vault, root, [came], [gone]);
    assert [came, gone] == [came] + [gone];
  }

  lemma LastWalked(d: string, path: string)
    requires Under(path, d) && d != path
    ensures UpsertSurvives([UpsertTree(d), Delete(path), DeleteTree(path)], path)
  {
    var actions := [UpsertTree(d), Delete(path), DeleteTree(path)];
    assert actions == [UpsertTree(d)] + ([Delete(path)] + [DeleteTree(path)]);
    LastConcat([UpsertTree(d)], [Delete(path)] + [DeleteTree(path)], d);
    LastConcat([Delete(path)], [DeleteTree(path)], d);
    LastOfOne(UpsertTree(d), d);
    LastOfOne(Delete(path), d);
    LastOfOne(DeleteTree(path), d);
  }
}
