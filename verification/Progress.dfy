/** When the vault stands still the pipeline drains. */
module Progress {
  import opened Notes
  import opened Store
  import opened Watcher
  import opened Protocol
  import opened Convergence
  import opened Safety

  /** A step of the program itself that is not a repeated look at a path. */
  predicate Pipeline(step: Step) {
    !(step.Change? || step.Lose? || step.Noise? || step.WalkAgain? || step.RescanAgain?)
  }

  // ---- Every pipeline step makes progress ----------------------------------------------

  function EventsLeft(s: State): nat {
    2 * |s.queue|
    + match s.debouncer
      case Window(events) => |events|
      case Classifying(todo, _, _) => |todo|
      case _ => 0
  }

  function Phase(d: Debouncer): nat {
    match d
    case Window(events) => if events == [] then 0 else 3
    case Classifying(_, _, _) => 2
    case _ => 1
  }

  function RescansLeft(s: State): nat {
    2 * s.rescans + if s.walk.Some? then 1 else 0
  }

  function ReadsLeft(d: Debouncer): nat {
    match d
    case Reading(paths, trees, _, _, _, _) => |paths| + 2 * |trees|
    case Walking(_, _, trees, _, _, _, _) => 2 * |trees| + 1
    case _ => 0
  }

  predicate Lower(t: State, s: State) {
    || EventsLeft(t) < EventsLeft(s)
    || (EventsLeft(t) == EventsLeft(s) &&
        (|| Phase(t.debouncer) < Phase(s.debouncer)
         || (Phase(t.debouncer) == Phase(s.debouncer) &&
             (|| RescansLeft(t) < RescansLeft(s)
              || (RescansLeft(t) == RescansLeft(s) &&
                  (|| ReadsLeft(t.debouncer) < ReadsLeft(s.debouncer)
                   || (ReadsLeft(t.debouncer) == ReadsLeft(s.debouncer) && |t.mailbox| < |s.mailbox|)))))))
  }

  /** However the processes are scheduled, each of their steps uses up some
      of the work at hand; no schedule goes on for ever. */
  lemma PipelineStepIsProgress(root: seq<string>, s: State, step: Step)
    requires Enabled(s, step) && Pipeline(step)
    ensures Lower(Next(root, s, step), s)
    ensures Next(root, s, step).vault == s.vault
  {
  }

  // ---- Some step is always possible -----------------------------------------------------------

  lemma {:induction false} ListingExists(m: NoteMap, keys: set<string>) returns (notes: seq<Note>)
    requires Keyed(m) && keys <= m.Keys
    ensures PutAll(map[], notes) == map k | k in keys :: m[k]
    decreases |keys|
  {
    if keys == {} {
      notes := [];
    } else {
      var k :| k in keys;
      var rest := ListingExists(m, keys - {k});
      notes := rest + [m[k]];
      PutAllConcat(map[], rest, [m[k]]);
      assert [m[k]][1..] == [];
      assert PutAll(PutAll(map[], rest), [m[k]]) == PutAll(map[], rest)[m[k].path := m[k]];
    }
  }

  lemma Listing(m: NoteMap) returns (notes: seq<Note>)
    requires Keyed(m)
    ensures PutAll(map[], notes) == m
  {
    notes := ListingExists(m, m.Keys);
    assert m == map k | k in m.Keys :: m[k];
  }

  lemma SomeStepIsPossible(root: seq<string>, s: State) returns (step: Step)
    requires Invariant(root, s) && !Quiescent(s)
    ensures Enabled(s, step) && Orderly(s, step) && Pipeline(step)
  {
    if s.mailbox != [] {
      step := Handle;
    } else if s.walk.Some? {
      var found := Listing(s.walk.value);
      step := FinishRescan(found);
    } else if s.rescans > 0 && !BuildingOverflowBatch(s.debouncer) {
      step := StartRescan;
    } else {
      match s.debouncer {
        case Window(events) => step := if events != [] then CloseWindow else Deliver;
        case Classifying(todo, actions, _) =>
          if todo != [] {
            step := MapOne;
          } else {
            CoalescedCoalesces(actions);
            step := CoalesceWindow(Coalesced(actions));
          }
        case Reading(paths, trees, _, _, _, _) =>
          step := if paths != [] then ReadOne else if trees != [] then StartWalk else CastBatch;
        case Walking(_, seen, _, _, _, _, _) =>
          var found := Listing(seen);
          step := FinishWalk(found);
      }
    }
  }

  // ---- Draining ------------------------------------------------------------------------------------

  lemma {:induction false} Drains(root: seq<string>, s: State) returns (steps: seq<Step>)
    requires Invariant(root, s)
    ensures OrderlyRun(root, s, steps) && Run(root, s, steps)
    ensures forall step <- steps :: Pipeline(step)
    ensures Quiescent(After(root, s, steps)) && After(root, s, steps).vault == s.vault
    decreases EventsLeft(s), Phase(s.debouncer), RescansLeft(s), ReadsLeft(s.debouncer), |s.mailbox|
  {
    if Quiescent(s) {
      steps := [];
    } else {
      var step := SomeStepIsPossible(root, s);
      PipelineStepIsProgress(root, s, step);
      StepInvariant(root, s, step);
      var rest := Drains(root, Next(root, s, step));
      steps := [step] + rest;
      assert steps[1..] == rest;
    }
  }

  lemma {:induction false} RunConcat(root: seq<string>, s: State, a: seq<Step>, b: seq<Step>)
    requires OrderlyRun(root, s, a) && Run(root, s, a) && OrderlyRun(root, After(root, s, a), b)
    requires Run(root, After(root, s, a), b)
    ensures OrderlyRun(root, s, a + b) && Run(root, s, a + b)
    ensures After(root, s, a + b) == After(root, After(root, s, a), b)
    decreases |a|
  {
    if a == [] {
      assert a + b == b;
    } else {
      assert (a + b)[1..] == a[1..] + b;
      RunConcat(root, Next(root, s, a[0]), a[1..], b);
    }
  }

  /** From wherever an orderly run has got to, the program alone can bring
      the store to exactly what a scan of the vault would find. */
  lemma Converges(root: seq<string>, s0: State, steps: seq<Step>) returns (more: seq<Step>)
    requires Initial(s0) && OrderlyRun(root, s0, steps)
    ensures Run(root, s0, steps) && OrderlyRun(root, s0, steps + more) && Run(root, s0, steps + more)
    ensures forall step <- more :: Pipeline(step)
    ensures var s, t := After(root, s0, steps), After(root, s0, steps + more);
            && Quiescent(t) && t.vault == s.vault
            && forall path | !StatusAt(s.vault, path).Broken? ::
                 && (path in t.store <==> path in Scanned(s.vault, []))
                 && (path in t.store ==> t.store[path] == Scanned(s.vault, [])[path])
  {
    InitialInvariant(root, s0);
    RunInvariant(root, s0, steps);
    more := Drains(root, After(root, s0, steps));
    RunConcat(root, s0, steps, more);
    var t := After(root, s0, steps + more);
    forall path | !StatusAt(t.vault, path).Broken?
      ensures (path in t.store <==> path in Scanned(t.vault, []))
           && (path in t.store ==> t.store[path] == Scanned(t.vault, [])[path])
    {
      QuietMeansExact(root, s0, steps + more, path);
    }
  }

  // ---- Every schedule -------------------------------------------------------------------------------

  /** No step of the program is possible that keeps to the rules. */
  ghost predicate Stuck(s: State) {
    forall step | Pipeline(step) && Enabled(s, step) :: !Orderly(s, step)
  }

  /** One turn of some scheduler: an orderly step of the program as long as
      there is one. */
  ghost predicate Turn(root: seq<string>, s: State, t: State) {
    || (exists step :: Pipeline(step) && Enabled(s, step) && Orderly(s, step) && t == Next(root, s, step))
    || (Stuck(s) && t == s)
  }

  lemma StuckIsQuiescent(root: seq<string>, s: State)
    requires Invariant(root, s) && Stuck(s)
    ensures Quiescent(s)
  {
    if !Quiescent(s) {
      var step := SomeStepIsPossible(root, s);
    }
  }

  /** The store is what a scan finds, on all paths but unreadable files. */
  ghost predicate ExactStore(s: State) {
    forall path | !StatusAt(s.vault, path).Broken? ::
      && (path in s.store <==> path in Scanned(s.vault, []))
      && (path in s.store ==> s.store[path] == Scanned(s.vault, [])[path])
  }

  lemma QuietIsExact(root: seq<string>, s: State)
    requires Invariant(root, s) && Quiescent(s)
    ensures ExactStore(s)
  {
    forall path | !StatusAt(s.vault, path).Broken?
      ensures (path in s.store <==> path in Scanned(s.vault, []))
           && (path in s.store ==> s.store[path] == Scanned(s.vault, [])[path])
    {
      QuietAt(root, s, path);
    }
  }

  /** Any schedule at all comes to rest after finitely many turns. */
  lemma {:induction false} ScheduleRests(root: seq<string>, schedule: nat -> State, i: nat) returns (n: nat)
    requires Invariant(root, schedule(i))
    requires forall k: nat :: Turn(root, schedule(k), schedule(k + 1))
    ensures Quiescent(schedule(n)) && schedule(n).vault == schedule(i).vault && ExactStore(schedule(n))
    decreases EventsLeft(schedule(i)), Phase(schedule(i).debouncer), RescansLeft(schedule(i)),
      ReadsLeft(schedule(i).debouncer), |schedule(i).mailbox|
  {
    var s, t := schedule(i), schedule(i + 1);
    assert Turn(root, s, t);
    if Stuck(s) {
      StuckIsQuiescent(root, s);
      QuietIsExact(root, s);
      n := i;
    } else {
      TurnIsProgress(root, s, t);
      n := ScheduleRests(root, schedule, i + 1);
    }
  }

  lemma TurnIsProgress(root: seq<string>, s: State, t: State)
    requires Invariant(root, s) && Turn(root, s, t) && !Stuck(s)
    ensures Invariant(root, t) && t.vault == s.vault && Lower(t, s)
  {
    var step :| Pipeline(step) && Enabled(s, step) && Orderly(s, step) && t == Next(root, s, step);
    PipelineStepIsProgress(root, s, step);
    StepInvariant(root, s, step);
  }

  /** From wherever an orderly run has got to, while the vault stands still,
      every schedule of the program's own steps comes to rest, and rests with the
      store exactly what a scan of the vault would find. */
  lemma EveryScheduleConverges(root: seq<string>, s0: State, steps: seq<Step>, schedule: nat -> State) returns (n: nat)
    requires Initial(s0) && OrderlyRun(root, s0, steps) && Run(root, s0, steps)
    requires schedule(0) == After(root, s0, steps)
    requires forall k: nat :: Turn(root, schedule(k), schedule(k + 1))
    ensures Quiescent(schedule(n)) && schedule(n).vault == schedule(0).vault && ExactStore(schedule(n))
  {
    InitialInvariant(root, s0);
    RunInvariant(root, s0, steps);
    n := ScheduleRests(root, schedule, 0);
  }
}
