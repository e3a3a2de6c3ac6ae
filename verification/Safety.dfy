/** The invariant of every orderly run, and what follows when the pipeline drains. */
module Safety {
  import opened Text
  import opened Paths
  import opened Notes
  import opened Store
  import opened Vault
  import opened Watcher
  import opened App
  import opened Protocol
  import opened Convergence
  import opened Changes

  // ---- The events of one operation --------------------------------------------------------

  lemma OfRaised(vault: Node, root: seq<string>, path: string, kind: EventKind, q: string)
    requires ValidPath(q) && Classify(kind).Some?
    requires !Classify(kind).value.Rename? && !Classify(kind).value.RenameUnpaired?
    ensures Proper(root, Raise(kind, [Absolute(root, q)]))
    ensures OfEvent(vault, root, path, Raise(kind, [Absolute(root, q)])) ==
            match Classify(kind).value
            case Modify => ModifyEffect(vault, path, q)
            case Appear => AppearEffect(vault, path, q)
            case _ => VanishEffect(path, q)
  {
    var abs := Absolute(root, q);
    RelativeOf(root, q);
    CollectOne(abs, Modified(root));
    CollectOne(abs, Appeared(vault, root));
    CollectOne(abs, Vanished(root));
    ModifiedEffect(vault, root, path, q);
    AppearedEffect(vault, root, path, q);
    VanishedEffect(vault, root, path, q);
  }

  lemma PairActions(vault: Node, root: seq<string>, f: seq<string>, t: seq<string>)
    ensures ActionsAt(vault, root, Raise(RenameBoth, [f, t])) == Vanished(root)(f) + Appeared(vault, root)(t)
  {
  }

  lemma OfPair(vault: Node, root: seq<string>, path: string, f: string, t: string)
    requires ValidPath(f) && ValidPath(t)
    ensures var n := Raise(RenameBoth, [Absolute(root, f), Absolute(root, t)]);
            && Proper(root, n)
            && OfEvent(vault, root, path, n) == Then(VanishEffect(path, f), AppearEffect(vault, path, t))
  {
    var from, to := Absolute(root, f), Absolute(root, t);
    RelativeOf(root, f);
    RelativeOf(root, t);
    PairActions(vault, root, from, to);
    AppearedEffect(vault, root, path, t);
    VanishedEffect(vault, root, path, f);
    OfActionsConcat(vault, path, Vanished(root)(from), Appeared(vault, root)(to));
  }

  /** An operation's own events are right about everything they touch, and
      they touch everything the operation changes. */
  lemma OperationSound(root: seq<string>, before: Node, op: VaultOp, after: Node, path: string)
    requires OpChanges(before, op, after)
    requires op.TouchDir? ==> !IsMarkdown(op.path)
    ensures ProperAll(root, EventsOf(root, op))
    ensures Sound(before, after, path, OfEvents(after, root, path, EventsOf(root, op)))
  {
    match op {
      case WriteFile(q, kind) =>
        OfWrite(after, root, path, kind, q);
        WriteSound(before, after, q, kind, path);
      case Enter(q, kind) =>
        OfEntry(after, root, path, kind, q);
        EnterSound(before, after, q, kind, path);
      case Leave(q, kind) =>
        OfLeave(after, root, path, kind, q);
        LeaveSound(before, after, q, kind, path);
      case Move(f, t) =>
        OfMove(root, after, f, t, path);
        MoveSound(before, after, f, t, path);
      case TouchDir(q) =>
        OfWrite(after, root, path, ModifyMetadata, q);
    }
  }

  lemma OfWrite(vault: Node, root: seq<string>, path: string, kind: EventKind, q: string)
    requires ValidPath(q) && kind in {ModifyData, ModifyMetadata, ModifyAny, AccessCloseWrite}
    ensures var es := [Raise(kind, [Absolute(root, q)])];
            ProperAll(root, es) && OfEvents(vault, root, path, es) == ModifyEffect(vault, path, q)
  {
    OfRaised(vault, root, path, kind, q);
    OfEventsOne(vault, root, path, Raise(kind, [Absolute(root, q)]));
  }

  lemma OfEntry(vault: Node, root: seq<string>, path: string, kind: EventKind, q: string)
    requires ValidPath(q) && kind in {Create, RenameTo}
    ensures var es := [Raise(kind, [Absolute(root, q)])];
            ProperAll(root, es) && OfEvents(vault, root, path, es) == AppearEffect(vault, path, q)
  {
    OfRaised(vault, root, path, kind, q);
    OfEventsOne(vault, root, path, Raise(kind, [Absolute(root, q)]));
  }

  lemma OfLeave(vault: Node, root: seq<string>, path: string, kind: EventKind, q: string)
    requires ValidPath(q) && kind in {Remove, RenameFrom}
    ensures var es := [Raise(kind, [Absolute(root, q)])];
            ProperAll(root, es) && OfEvents(vault, root, path, es) == VanishEffect(path, q)
  {
    OfRaised(vault, root, path, kind, q);
    OfEventsOne(vault, root, path, Raise(kind, [Absolute(root, q)]));
  }

  lemma OfSides(vault: Node, root: seq<string>, path: string, f: string, t: string)
    requires ValidPath(f) && ValidPath(t)
    ensures var gone, come := Raise(RenameFrom, [Absolute(root, f)]), Raise(RenameTo, [Absolute(root, t)]);
            && Proper(root, gone) && OfEvent(vault, root, path, gone) == VanishEffect(path, f)
            && Proper(root, come) && OfEvent(vault, root, path, come) == AppearEffect(vault, path, t)
  {
    OfRaised(vault, root, path, RenameFrom, f);
    OfRaised(vault, root, path, RenameTo, t);
  }

  lemma OfMove(root: seq<string>, after: Node, f: string, t: string, path: string)
    requires ValidPath(f) && ValidPath(t)
    ensures ProperAll(root, EventsOf(root, Move(f, t)))
    ensures OfEvents(after, root, path, EventsOf(root, Move(f, t)))
         == Then(VanishEffect(path, f), AppearEffect(after, path, t))
  {
    OfSides(after, root, path, f, t);
    OfPair(after, root, path, f, t);
    OfThree(after, root, path, Raise(RenameFrom, [Absolute(root, f)]), Raise(RenameTo, [Absolute(root, t)]),
            Raise(RenameBoth, [Absolute(root, f), Absolute(root, t)]));
  }

  lemma OfThree(vault: Node, root: seq<string>, path: string, a: Notify, b: Notify, c: Notify)
    ensures OfEvents(vault, root, path, [a, b, c])
         == Then(OfEvent(vault, root, path, a), Then(OfEvent(vault, root, path, b), OfEvent(vault, root, path, c)))
    ensures Proper(root, a) && Proper(root, b) && Proper(root, c) ==> ProperAll(root, [a, b, c])
  {
    assert [a, b, c] == [a] + ([b] + [c]);
    OfEventsConcat(vault, root, path, [a], [b] + [c]);
    OfEventsConcat(vault, root, path, [b], [c]);
    OfEventsOne(vault, root, path, a);
    OfEventsOne(vault, root, path, b);
    OfEventsOne(vault, root, path, c);
  }

  // ---- What is pending stays valid under a change that does not touch the path -------------

  lemma {:induction false} ActionsStable(before: Node, after: Node, path: string, actions: seq<WatchAction>)
    requires StatusAt(after, path) == StatusAt(before, path)
    ensures OfActions(after, path, actions) == OfActions(before, path, actions)
    decreases |actions|
  {
    if actions != [] {
      ActionsStable(before, after, path, actions[..|actions| - 1]);
      ActionStable(before, after, path, actions[|actions| - 1]);
    }
  }

  lemma ActionStable(before: Node, after: Node, path: string, a: WatchAction)
    requires StatusAt(after, path) == StatusAt(before, path)
    ensures OfAction(after, path, a) == OfAction(before, path, a)
  {
  }

  lemma {:induction false} AppearancesStable(before: Node, after: Node, root: seq<string>, path: string,
    paths: seq<seq<string>>)
    requires Stable(before, after, path) && forall abs <- paths :: CleanPath(root, abs)
    ensures SameOrProbe(OfActions(before, path, Collect(paths, Appeared(before, root))),
                        OfActions(after, path, Collect(paths, Appeared(after, root))))
  {
    if paths != [] {
      OneAppearanceStable(before, after, root, path, paths[0]);
      AppearancesStable(before, after, root, path, paths[1..]);
      OfActionsConcat(before, path, Appeared(before, root)(paths[0]), Collect(paths[1..], Appeared(before, root)));
      OfActionsConcat(after, path, Appeared(after, root)(paths[0]), Collect(paths[1..], Appeared(after, root)));
    }
  }

  lemma CleanIsAbsolute(root: seq<string>, abs: seq<string>)
    requires CleanPath(root, abs)
    ensures var q := PathOf(abs[|root|..]); ValidPath(q) && abs == Absolute(root, q)
  {
    SegmentsOfPath(abs[|root|..]);
    assert abs == root + abs[|root|..];
  }

  lemma OneAppearanceStable(before: Node, after: Node, root: seq<string>, path: string, abs: seq<string>)
    requires Stable(before, after, path) && CleanPath(root, abs)
    ensures SameOrProbe(OfActions(before, path, Appeared(before, root)(abs)),
                        OfActions(after, path, Appeared(after, root)(abs)))
  {
    CleanIsAbsolute(root, abs);
    var q := PathOf(abs[|root|..]);
    AppearedEffect(before, root, path, q);
    AppearedEffect(after, root, path, q);
    AppearStable(before, after, path, q);
  }

  lemma RenameStable(before: Node, after: Node, root: seq<string>, path: string, f: seq<string>, t: seq<string>)
    requires Stable(before, after, path) && CleanPath(root, t)
    ensures SameOrProbe(OfActions(before, path, Vanished(root)(f) + Appeared(before, root)(t)),
                        OfActions(after, path, Vanished(root)(f) + Appeared(after, root)(t)))
  {
    ActionsStable(before, after, path, Vanished(root)(f));
    OneAppearanceStable(before, after, root, path, t);
    OfActionsConcat(before, path, Vanished(root)(f), Appeared(before, root)(t));
    OfActionsConcat(after, path, Vanished(root)(f), Appeared(after, root)(t));
  }

  lemma EventStable(before: Node, after: Node, root: seq<string>, path: string, n: Notify)
    requires Stable(before, after, path) && Proper(root, n)
    ensures SameOrProbe(OfEvent(before, root, path, n), OfEvent(after, root, path, n))
  {
    if AppearProbed(n) {
      ProbeMapped(before, root, path, n);
      ProbeMapped(after, root, path, n);
      AppearancesStable(before, after, root, path, n.event.paths);
    } else if RenameProbed(n) {
      ProbeMapped(before, root, path, n);
      ProbeMapped(after, root, path, n);
      RenameStable(before, after, root, path, n.event.paths[0], n.event.paths[1]);
    } else {
      UnprobedStable(before, after, root, path, n);
    }
  }

  predicate AppearProbed(n: Notify) {
    n.Delivered? && !IsOverflow(n.event) && Classify(n.event.kind) == Some(Appear)
  }

  predicate RenameProbed(n: Notify) {
    n.Delivered? && !IsOverflow(n.event) && Classify(n.event.kind) == Some(Rename) && |n.event.paths| > 1
  }

  lemma ProbeMapped(vault: Node, root: seq<string>, path: string, n: Notify)
    ensures AppearProbed(n) ==>
              OfEvent(vault, root, path, n) == OfActions(vault, path, Collect(n.event.paths, Appeared(vault, root)))
    ensures RenameProbed(n) ==>
              OfEvent(vault, root, path, n)
              == OfActions(vault, path, Vanished(root)(n.event.paths[0]) + Appeared(vault, root)(n.event.paths[1]))
  {
  }

  lemma UnprobedStable(before: Node, after: Node, root: seq<string>, path: string, n: Notify)
    requires Stable(before, after, path) && Proper(root, n) && !AppearProbed(n) && !RenameProbed(n)
    ensures OfEvent(before, root, path, n) == OfEvent(after, root, path, n)
  {
    NothingProbed(before, after, root, n);
    ActionsStable(before, after, path, ActionsAt(before, root, n));
  }

  /** All other events are mapped without looking at the file system. */
  lemma NothingProbed(before: Node, after: Node, root: seq<string>, n: Notify)
    requires Proper(root, n) && !AppearProbed(n) && !RenameProbed(n)
    ensures ActionsAt(before, root, n) == ActionsAt(after, root, n)
  {
  }

  lemma {:induction false} EventsStable(before: Node, after: Node, root: seq<string>, path: string, events: seq<Notify>)
    requires Stable(before, after, path) && ProperAll(root, events)
    ensures SameOrProbe(OfEvents(before, root, path, events), OfEvents(after, root, path, events))
  {
    if events != [] {
      EventStable(before, after, root, path, events[0]);
      EventsStable(before, after, root, path, events[1..]);
    }
  }

  lemma DebouncerStable(before: Node, after: Node, root: seq<string>, path: string, d: Debouncer, rescans: nat)
    requires Stable(before, after, path) && WellKept(root, d, rescans)
    ensures SameOrProbe(OfDebouncer(before, root, path, d), OfDebouncer(after, root, path, d))
  {
    match d {
      case Window(events) => EventsStable(before, after, root, path, events);
      case Classifying(todo, actions, _) =>
        ActionsStable(before, after, path, actions);
        EventsStable(before, after, root, path, todo);
      case Reading(paths, trees, prefixes, upserts, deletes, _) =>
        BatchStable(before, after, path, paths, trees, prefixes, upserts, deletes, map[]);
      case Walking(_, seen, trees, prefixes, upserts, deletes, _) =>
        BatchStable(before, after, path, [], trees, prefixes, upserts, deletes, seen);
    }
  }

  lemma BatchStable(before: Node, after: Node, path: string, paths: seq<string>, trees: seq<string>,
    prefixes: seq<string>, upserts: seq<Note>, deletes: seq<string>, seen: NoteMap)
    requires StatusAt(after, path) == StatusAt(before, path)
    ensures OfBatch(after, path, paths, trees, prefixes, upserts, deletes, seen)
         == OfBatch(before, path, paths, trees, prefixes, upserts, deletes, seen)
  {
  }

  // ---- Each step keeps every path right -------------------------------------------------------

  lemma ChangeKeepsRight(root: seq<string>, s: State, op: VaultOp, after: Node, path: string)
    requires Invariant(root, s) && Enabled(s, Change(op, after)) && Orderly(s, Change(op, after))
    ensures Right(after, path, Outcome(root, Next(root, s, Change(op, after)), path))
  {
    var es := EventsOf(root, op);
    OperationSound(root, s.vault, op, after, path);
    OfEventsConcat(after, root, path, s.queue, es);
    if OfEvents(after, root, path, es).Keep? && Stable(s.vault, after, path) {
      assert Right(s.vault, path, Outcome(root, s, path));
      EventsStable(s.vault, after, root, path, s.queue);
      DebouncerStable(s.vault, after, root, path, s.debouncer, s.rescans);
    }
  }

  lemma LoseKeepsRight(root: seq<string>, s: State, after: Node, marked: bool, path: string)
    requires Enabled(s, Lose(after, marked)) && Orderly(s, Lose(after, marked))
    ensures Right(after, path, Outcome(root, Next(root, s, Lose(after, marked)), path))
  {
    var queue := Next(root, s, Lose(after, marked)).queue;
    var early, mark := queue[..|queue| - 1], queue[|queue| - 1];
    assert queue == early + [mark];
    OfEventsConcat(after, root, path, early, [mark]);
    OfEventsOne(after, root, path, mark);
  }

  /** The steps that only move events along. */
  lemma FlowKeepsOutcome(root: seq<string>, s: State, step: Step, path: string)
    requires Enabled(s, step) && (step.Noise? || step.Deliver? || step.CloseWindow?)
    ensures Outcome(root, Next(root, s, step), path) == Outcome(root, s, path)
  {
    match step {
      case Noise(n) => NoiseKeepsOutcome(root, s, n, path);
      case Deliver => DeliverKeepsOutcome(root, s, path);
      case CloseWindow => CloseKeepsOutcome(root, s, path);
    }
  }

  lemma NoiseKeepsOutcome(root: seq<string>, s: State, n: Notify, path: string)
    requires Enabled(s, Noise(n))
    ensures Outcome(root, Next(root, s, Noise(n)), path) == Outcome(root, s, path)
  {
    MeaninglessKeeps(s.vault, root, path, n);
    OfEventsConcat(s.vault, root, path, s.queue, [n]);
  }

  lemma MeaninglessKeeps(vault: Node, root: seq<string>, path: string, n: Notify)
    requires Meaningless(n)
    ensures OfEvents(vault, root, path, [n]) == Keep
  {
    OfEventsOne(vault, root, path, n);
  }

  lemma DeliverKeepsOutcome(root: seq<string>, s: State, path: string)
    requires Enabled(s, Deliver)
    ensures Outcome(root, Next(root, s, Deliver), path) == Outcome(root, s, path)
  {
    OfEventsConcat(s.vault, root, path, s.debouncer.events, [s.queue[0]]);
    OfEventsOne(s.vault, root, path, s.queue[0]);
  }

  lemma CloseKeepsOutcome(root: seq<string>, s: State, path: string)
    requires Enabled(s, CloseWindow)
    ensures Outcome(root, Next(root, s, CloseWindow), path) == Outcome(root, s, path)
  {
  }

  lemma MapKeepsOutcome(root: seq<string>, s: State, path: string)
    requires Enabled(s, MapOne)
    ensures Right(s.vault, path, Outcome(root, s, path)) ==>
              Right(s.vault, path, Outcome(root, Next(root, s, MapOne), path))
  {
    var d, n := s.debouncer, s.debouncer.todo[0];
    var more := ActionsAt(s.vault, root, n);
    OfActionsConcat(s.vault, path, d.actions, more);
    assert OfEvents(s.vault, root, path, d.todo)
        == Then(OfEvent(s.vault, root, path, n), OfEvents(s.vault, root, path, d.todo[1..]));
  }

  lemma MapKeepsRight(root: seq<string>, s: State, path: string)
    requires Invariant(root, s) && Enabled(s, MapOne)
    ensures Right(s.vault, path, Outcome(root, Next(root, s, MapOne), path))
  {
    MapKeepsOutcome(root, s, path);
    assert Right(s.vault, path, Outcome(root, s, path));
  }

  lemma CoalesceKeepsRight(root: seq<string>, s: State, b: WatchBatch, path: string)
    requires Invariant(root, s) && Enabled(s, CoalesceWindow(b))
    ensures Right(s.vault, path, Outcome(root, Next(root, s, CoalesceWindow(b)), path))
  {
    assert Right(s.vault, path, Outcome(root, s, path));
    if b == WatchBatch([], [], [], []) {
      EmptyExactly(s.debouncer.actions, b);
    } else {
      CoalescedEffect(s.vault, s.debouncer.actions, b, path);
    }
  }

  lemma ReadKeepsRight(root: seq<string>, s: State, path: string)
    requires Invariant(root, s) && Enabled(s, ReadOne)
    ensures Right(s.vault, path, Outcome(root, Next(root, s, ReadOne), path))
  {
    assert Right(s.vault, path, Outcome(root, s, path));
    ReadMayStand(s.vault, s.debouncer, root, path);
  }

  lemma ReadMayStand(vault: Node, d: Debouncer, root: seq<string>, path: string)
    requires d.Reading? && d.paths != [] && Indexable(d.paths[0])
    ensures MayStandFor(vault, path, OfDebouncer(vault, root, path, d),
                        OfDebouncer(vault, root, path, FirstRead(vault, d)))
  {
    match ScanOne(vault, d.paths[0]) {
      case Ok(_) => NoteMayStand(vault, d, root, path);
      case Err(_) => FailureMayStand(vault, d, root, path);
    }
  }

  lemma NoteMayStand(vault: Node, d: Debouncer, root: seq<string>, path: string)
    requires d.Reading? && d.paths != [] && Indexable(d.paths[0]) && ScanOne(vault, d.paths[0]).Ok?
    ensures MayStandFor(vault, path, OfDebouncer(vault, root, path, d),
                        OfDebouncer(vault, root, path, FirstRead(vault, d)))
  {
    assert path in d.paths <==> path == d.paths[0] || path in d.paths[1..];
    LastNamedAppend(d.upserts, ScanOne(vault, d.paths[0]).value, path);
  }

  lemma FailureMayStand(vault: Node, d: Debouncer, root: seq<string>, path: string)
    requires d.Reading? && d.paths != [] && Indexable(d.paths[0]) && ScanOne(vault, d.paths[0]).Err?
    ensures MayStandFor(vault, path, OfDebouncer(vault, root, path, d),
                        OfDebouncer(vault, root, path, FirstRead(vault, d)))
  {
    assert path in d.paths <==> path == d.paths[0] || path in d.paths[1..];
  }

  lemma StartWalkKeepsRight(root: seq<string>, s: State, path: string)
    requires Invariant(root, s) && Enabled(s, StartWalk)
    ensures Right(s.vault, path, Outcome(root, Next(root, s, StartWalk), path))
  {
    assert Right(s.vault, path, Outcome(root, s, path));
    var d := s.debouncer;
    ScannedAt(s.vault, d.trees[0], path);
    UnderAnyHead(path, d.trees);
  }

  lemma UnderAnyHead(path: string, dirs: seq<string>)
    requires dirs != []
    ensures UnderAny(path, dirs) <==> Under(path, dirs[0]) || UnderAny(path, dirs[1..])
  {
    assert dirs == [dirs[0]] + dirs[1..];
  }

  lemma ObservedAt(vault: Node, seen: NoteMap, q: string, path: string)
    ensures OfMap(Observed(vault, seen, q), path) ==
            if path != q then OfMap(seen, path)
            else if StatusAt(vault, path).Holds? then Put(StatusAt(vault, path).note) else Keep
  {
    IndexedIsStatus(vault, q);
  }

  lemma WalkAgainKeepsRight(root: seq<string>, s: State, q: string, path: string)
    requires Invariant(root, s) && Enabled(s, WalkAgain(q))
    ensures Right(s.vault, path, Outcome(root, Next(root, s, WalkAgain(q)), path))
  {
    assert Right(s.vault, path, Outcome(root, s, path));
    ObservedAt(s.vault, s.debouncer.seen, q, path);
    assert Under(q, s.debouncer.dir) ==> UnderAny(q, s.debouncer.prefixes);
  }

  lemma FinishWalkKeepsOutcome(root: seq<string>, s: State, found: seq<Note>, path: string)
    requires Enabled(s, FinishWalk(found))
    ensures Outcome(root, Next(root, s, FinishWalk(found)), path) == Outcome(root, s, path)
  {
    PutAllAt(map[], found, path);
    LastNamedConcat(s.debouncer.upserts, found, path);
  }

  lemma CastKeepsRight(root: seq<string>, s: State, path: string)
    requires Invariant(root, s) && Enabled(s, CastBatch) && s.walk.None?
    ensures Right(s.vault, path, Outcome(root, Next(root, s, CastBatch), path))
  {
    assert Right(s.vault, path, Outcome(root, s, path));
    var m := Batch(IndexBatch(s.debouncer.upserts, s.debouncer.deletes, s.debouncer.prefixes));
    OfMailboxConcat(s.mailbox, [m], path);
    assert [m][1..] == [];
  }

  lemma StartRescanKeepsRight(root: seq<string>, s: State, path: string)
    requires Invariant(root, s) && Enabled(s, StartRescan)
    ensures Right(s.vault, path, Outcome(root, Next(root, s, StartRescan), path))
  {
    assert Right(s.vault, path, Outcome(root, s, path));
    ScannedBelow(s.vault, [], path);
  }

  lemma RescanAgainKeepsRight(root: seq<string>, s: State, q: string, path: string)
    requires Invariant(root, s) && Enabled(s, RescanAgain(q))
    ensures Right(s.vault, path, Outcome(root, Next(root, s, RescanAgain(q)), path))
  {
    assert Right(s.vault, path, Outcome(root, s, path));
    ObservedAt(s.vault, s.walk.value, q, path);
  }

  lemma FinishRescanKeepsOutcome(root: seq<string>, s: State, found: seq<Note>, path: string)
    requires Enabled(s, FinishRescan(found))
    ensures Outcome(root, Next(root, s, FinishRescan(found)), path) == Outcome(root, s, path)
  {
    PutAllAt(map[], found, path);
    OfMailboxConcat(s.mailbox, [Rebuild(found)], path);
    assert [Rebuild(found)][1..] == [];
  }

  lemma HandleKeepsOutcome(root: seq<string>, s: State, path: string)
    requires Enabled(s, Handle)
    ensures Outcome(root, Next(root, s, Handle), path) == Outcome(root, s, path)
  {
    HandledAt(s.store, s.mailbox[0], path);
  }

  // ---- Each step keeps the bookkeeping -----------------------------------------------------------

  lemma CleanAt(vault: Node, root: seq<string>, abs: seq<string>)
    requires CleanPath(root, abs)
    ensures forall a <- Modified(root)(abs) :: Clean(a)
    ensures forall a <- Appeared(vault, root)(abs) :: Clean(a)
    ensures forall a <- Vanished(root)(abs) :: Clean(a)
  {
    var q := PathOf(abs[|root|..]);
    SegmentsOfPath(abs[|root|..]);
    assert abs == Absolute(root, q);
    CleanAbsolute(vault, root, q);
  }

  lemma CleanAbsolute(vault: Node, root: seq<string>, q: string)
    requires ValidPath(q)
    ensures forall a <- Modified(root)(Absolute(root, q)) :: Clean(a)
    ensures forall a <- Appeared(vault, root)(Absolute(root, q)) :: Clean(a)
    ensures forall a <- Vanished(root)(Absolute(root, q)) :: Clean(a)
  {
    RelativeOf(root, q);
  }

  lemma {:induction false} CleanCollect(paths: seq<seq<string>>, f: seq<string> -> seq<WatchAction>)
    requires forall abs <- paths :: forall a <- f(abs) :: Clean(a)
    ensures forall a <- Collect(paths, f) :: Clean(a)
  {
    if paths != [] { CleanCollect(paths[1..], f); }
  }

  lemma CleanActions(vault: Node, root: seq<string>, n: Notify)
    requires Proper(root, n)
    ensures forall a <- ActionsAt(vault, root, n) :: Clean(a)
  {
    if n.Delivered? && !IsOverflow(n.event) && Classify(n.event.kind).Some? {
      var paths := n.event.paths;
      match Classify(n.event.kind).value {
        case Modify =>
          forall abs | abs in paths ensures forall a <- Modified(root)(abs) :: Clean(a) { CleanAt(vault, root, abs); }
          CleanCollect(paths, Modified(root));
        case Appear =>
          forall abs | abs in paths ensures forall a <- Appeared(vault, root)(abs) :: Clean(a) {
            CleanAt(vault, root, abs);
          }
          CleanCollect(paths, Appeared(vault, root));
        case Vanish =>
          forall abs | abs in paths ensures forall a <- Vanished(root)(abs) :: Clean(a) { CleanAt(vault, root, abs); }
          CleanCollect(paths, Vanished(root));
        case Rename =>
          if |paths| > 0 { CleanAt(vault, root, paths[0]); }
          if |paths| > 1 { CleanAt(vault, root, paths[1]); }
      }
    }
  }

  lemma StepKeepsBooks(root: seq<string>, s: State, step: Step)
    requires Invariant(root, s) && Enabled(s, step) && Orderly(s, step)
    ensures var t := Next(root, s, step);
            && t.vault.Dir? && WellFormed(t.vault) && WalksKeyed(t)
            && ProperAll(root, t.queue) && WellKept(root, t.debouncer, t.rescans)
  {
    match step {
      case Change(op, after) => OperationSound(root, s.vault, op, after, "");
      case MapOne => CleanActions(s.vault, root, s.debouncer.todo[0]);
      case StartWalk => PutAllKeyed(map[], ScanNotes(s.vault, Segments(s.debouncer.trees[0])));
      case StartRescan => PutAllKeyed(map[], ScanNotes(s.vault, []));
      case CoalesceWindow(b) =>
        forall q | q in b.upserts ensures Indexable(q) {
          LastUpsertNamed(s.debouncer.actions, q);
        }
        forall d | d in b.upsertTrees ensures ValidPath(d) && Visible(d) {
          LastUpsertNamed(s.debouncer.actions, d);
        }
      case _ =>
    }
  }

  // ---- The invariant --------------------------------------------------------------------------------

  lemma InitialInvariant(root: seq<string>, s: State)
    requires Initial(s)
    ensures Invariant(root, s)
  {
    forall path ensures Right(s.vault, path, Outcome(root, s, path)) {
      ScannedBelow(s.vault, [], path);
      PutAllAt(map[], ScanNotes(s.vault, []), path);
      assert s.mailbox[1..] == [];
      assert OfMailbox(s.mailbox, path) == OfMessage(s.mailbox[0], path);
      assert Segments(path)[..0] == [];
    }
  }

  lemma StepKeepsRight(root: seq<string>, s: State, step: Step, path: string)
    requires Invariant(root, s) && Enabled(s, step) && Orderly(s, step)
    ensures Right(Next(root, s, step).vault, path, Outcome(root, Next(root, s, step), path))
  {
    assert Right(s.vault, path, Outcome(root, s, path));
    match step {
      case Change(op, after) => ChangeKeepsRight(root, s, op, after, path);
      case Lose(after, marked) => LoseKeepsRight(root, s, after, marked, path);
      case Noise(_) => FlowKeepsOutcome(root, s, step, path);
      case Deliver => FlowKeepsOutcome(root, s, step, path);
      case CloseWindow => FlowKeepsOutcome(root, s, step, path);
      case MapOne => MapKeepsRight(root, s, path);
      case CoalesceWindow(b) => CoalesceKeepsRight(root, s, b, path);
      case ReadOne => ReadKeepsRight(root, s, path);
      case StartWalk => StartWalkKeepsRight(root, s, path);
      case WalkAgain(q) => WalkAgainKeepsRight(root, s, q, path);
      case FinishWalk(found) => FinishWalkKeepsOutcome(root, s, found, path);
      case CastBatch => CastKeepsRight(root, s, path);
      case StartRescan => StartRescanKeepsRight(root, s, path);
      case RescanAgain(q) => RescanAgainKeepsRight(root, s, q, path);
      case FinishRescan(found) => FinishRescanKeepsOutcome(root, s, found, path);
      case Handle => HandleKeepsOutcome(root, s, path);
    }
  }

  /** Every step of an orderly run keeps the invariant. */
  lemma StepInvariant(root: seq<string>, s: State, step: Step)
    requires Invariant(root, s) && Enabled(s, step) && Orderly(s, step)
    ensures Invariant(root, Next(root, s, step))
  {
    StepKeepsBooks(root, s, step);
    var t := Next(root, s, step);
    forall path ensures Right(t.vault, path, Outcome(root, t, path)) {
      StepKeepsRight(root, s, step, path);
    }
  }

  lemma {:induction false} RunInvariant(root: seq<string>, s: State, steps: seq<Step>)
    requires Invariant(root, s) && OrderlyRun(root, s, steps)
    ensures Run(root, s, steps) && Invariant(root, After(root, s, steps))
    decreases |steps|
  {
    if steps != [] {
      StepInvariant(root, s, steps[0]);
      RunInvariant(root, Next(root, s, steps[0]), steps[1..]);
    }
  }

  // ---- Convergence -------------------------------------------------------------------------------------

  /** Something still on its way to the store concerns this path. */
  ghost predicate Covered(root: seq<string>, s: State, path: string) {
    || (exists m <- s.mailbox :: !OfMessage(m, path).Keep?)
    || s.walk.Some?
    || s.rescans > 0
    || !OfDebouncer(s.vault, root, path, s.debouncer).Keep?
    || OverflowSeen(s.debouncer)
    || (exists n <- s.queue :: !OfEvent(s.vault, root, path, n).Keep?)
  }

  lemma {:induction false} EventsTouch(vault: Node, root: seq<string>, path: string, events: seq<Notify>)
    requires !OfEvents(vault, root, path, events).Keep?
    ensures exists n <- events :: !OfEvent(vault, root, path, n).Keep?
  {
    if OfEvent(vault, root, path, events[0]).Keep? {
      EventsTouch(vault, root, path, events[1..]);
    }
  }

  lemma {:induction false} MailboxTouches(mailbox: seq<Message>, path: string)
    requires !OfMailbox(mailbox, path).Keep?
    ensures exists m <- mailbox :: !OfMessage(m, path).Keep?
  {
    if OfMessage(mailbox[0], path).Keep? {
      MailboxTouches(mailbox[1..], path);
    }
  }

  /** In every state an orderly run reaches, whatever was changed, lost or
      read in between: a path on which the store and the vault disagree is
      covered by something pending. */
  lemma DisagreementIsCovered(root: seq<string>, s0: State, steps: seq<Step>, path: string)
    requires Initial(s0) && OrderlyRun(root, s0, steps)
    ensures Run(root, s0, steps)
    ensures var s := After(root, s0, steps);
            Agrees(s.vault, s.store, path) || Covered(root, s, path)
  {
    InitialInvariant(root, s0);
    RunInvariant(root, s0, steps);
    var s := After(root, s0, steps);
    assert Right(s.vault, path, Outcome(root, s, path));
    if !OfMailbox(s.mailbox, path).Keep? {
      MailboxTouches(s.mailbox, path);
    }
    if !OfEvents(s.vault, root, path, s.queue).Keep? {
      EventsTouch(s.vault, root, path, s.queue);
    }
  }

  lemma QuietAt(root: seq<string>, s: State, path: string)
    requires Invariant(root, s) && Quiescent(s)
    ensures !StatusAt(s.vault, path).Broken? ==>
              (path in s.store <==> path in Scanned(s.vault, []))
              && (path in s.store ==> s.store[path] == Scanned(s.vault, [])[path])
  {
    assert Right(s.vault, path, Outcome(root, s, path));
    ScannedBelow(s.vault, [], path);
  }

  /** Once nothing is pending, the store is the scan: the same note or the
      same absence on every path but those of unreadable files. */
  lemma QuietMeansExact(root: seq<string>, s0: State, steps: seq<Step>, path: string)
    requires Initial(s0) && OrderlyRun(root, s0, steps)
    requires Run(root, s0, steps) && Quiescent(After(root, s0, steps))
    ensures var s := After(root, s0, steps);
            !StatusAt(s.vault, path).Broken? ==>
              (path in s.store <==> path in Scanned(s.vault, []))
              && (path in s.store ==> s.store[path] == Scanned(s.vault, [])[path])
  {
    InitialInvariant(root, s0);
    RunInvariant(root, s0, steps);
    QuietAt(root, After(root, s0, steps), path);
  }

  // ---- Without an overflow no rule of scheduling is needed -------------------------------------------

  /** No overflow is on its way and no rescan is due or under way. */
  predicate NoOverflow(s: State) {
    && s.rescans == 0 && s.walk.None? && !Overflowed(s.queue)
    && match s.debouncer
       case Window(events) => !Overflowed(events)
       case Classifying(todo, _, overflow) => !Overflowed(todo) && !overflow
       case _ => !s.debouncer.overflow
  }

  lemma EventsSignalNothing(root: seq<string>, op: VaultOp)
    ensures !Overflowed(EventsOf(root, op))
  {
  }

  lemma StepNoOverflow(root: seq<string>, s: State, step: Step)
    requires NoOverflow(s) && Enabled(s, step) && !step.Lose?
    ensures NoOverflow(Next(root, s, step))
  {
    if step.Change? { EventsSignalNothing(root, step.op); }
  }

  /** As long as no event is lost, a run need only leave out metadata events
      on directories named like notes to be orderly. */
  lemma {:induction false} LosslessIsOrderly(root: seq<string>, s: State, steps: seq<Step>)
    requires NoOverflow(s) && RunUnder(root, s, steps, {NoFolderMetadata}) && forall step <- steps :: !step.Lose?
    ensures OrderlyRun(root, s, steps)
    decreases |steps|
  {
    if steps != [] {
      StepNoOverflow(root, s, steps[0]);
      LosslessIsOrderly(root, Next(root, s, steps[0]), steps[1..]);
    }
  }

  /** So without losses disagreements are covered however the processes are
      scheduled. */
  lemma LosslessIsCovered(root: seq<string>, s0: State, steps: seq<Step>, path: string)
    requires Initial(s0) && RunUnder(root, s0, steps, {NoFolderMetadata}) && forall step <- steps :: !step.Lose?
    ensures OrderlyRun(root, s0, steps) && Run(root, s0, steps)
    ensures var s := After(root, s0, steps);
            Agrees(s.vault, s.store, path) || Covered(root, s, path)
  {
    LosslessIsOrderly(root, s0, steps);
    DisagreementIsCovered(root, s0, steps, path);
  }
}
