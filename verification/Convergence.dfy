/** Every disagreement between store and vault is covered by something pending.

    Each pending element of the pipeline has an effect on each path, were the
    vault to stand still from now on.  The last effect along the pipeline decides
    what the store will say.  The invariant is that this is always right. */
module Convergence {
  import opened Text
  import opened Paths
  import opened Notes
  import opened Store
  import opened Vault
  import opened Watcher
  import opened App
  import opened Protocol

  // ---- Effects -------------------------------------------------------------------------

  /** `Probe` is a single-file read of a path that holds no file. */
  datatype Effect = Keep | Clear | Put(note: Note) | Probe

  function Then(first: Effect, second: Effect): Effect {
    if second.Keep? then first else second
  }

  /** The effect leaves the store right about the path. */
  predicate Right(vault: Node, path: string, e: Effect) {
    match StatusAt(vault, path)
    case Holds(n) => e == Put(n)
    case Broken => true
    case Nothing => e == Clear
  }

  function Refresh(vault: Node, path: string): Effect {
    match StatusAt(vault, path)
    case Holds(n) => Put(n)
    case _ => Clear
  }

  function OfMap(m: NoteMap, path: string): Effect {
    if path in m then Put(m[path]) else Keep
  }

  function OfAction(vault: Node, path: string, a: WatchAction): Effect {
    match a
    case Upsert(q) =>
      if path != q then Keep
      else
        (match StatusAt(vault, path)
         case Holds(n) => Put(n)
         case Broken => Keep
         case Nothing => Probe)
    case Delete(q) => if path == q then Clear else Keep
    case UpsertTree(d) => if Under(path, d) then Refresh(vault, path) else Keep
    case DeleteTree(d) => if Under(path, d) then Clear else Keep
  }

  function OfActions(vault: Node, path: string, actions: seq<WatchAction>): Effect {
    if actions == [] then Keep
    else Then(OfActions(vault, path, actions[..|actions| - 1]), OfAction(vault, path, actions[|actions| - 1]))
  }

  function OfEvent(vault: Node, root: seq<string>, path: string, n: Notify): Effect {
    if n.Delivered? && IsOverflow(n.event) then Refresh(vault, path)
    else OfActions(vault, path, ActionsAt(vault, root, n))
  }

  function OfEvents(vault: Node, root: seq<string>, path: string, events: seq<Notify>): Effect {
    if events == [] then Keep
    else Then(OfEvent(vault, root, path, events[0]), OfEvents(vault, root, path, events[1..]))
  }

  function OfRemovals(deletes: seq<string>, prefixes: seq<string>, path: string): Effect {
    if path in deletes || UnderAny(path, prefixes) then Clear else Keep
  }

  function OfNotes(notes: seq<Note>, path: string): Effect {
    match LastNamed(notes, path)
    case Some(n) => Put(n)
    case None => Keep
  }

  /** A batch under construction: removals, then what was read so far, then
      what is still to be read. */
  function OfBatch(vault: Node, path: string, paths: seq<string>, trees: seq<string>, prefixes: seq<string>,
                   upserts: seq<Note>, deletes: seq<string>, seen: NoteMap): Effect {
    var probe := if path in paths && StatusAt(vault, path).Nothing? then Probe else Keep;
    var read := Then(OfNotes(upserts, path), OfMap(seen, path));
    var toRead :=
      if (path in paths || UnderAny(path, trees)) && StatusAt(vault, path).Holds?
      then Put(StatusAt(vault, path).note) else Keep;
    Then(probe, Then(OfRemovals(deletes, prefixes, path), Then(read, toRead)))
  }

  function OfDebouncer(vault: Node, root: seq<string>, path: string, d: Debouncer): Effect {
    match d
    case Window(events) => OfEvents(vault, root, path, events)
    case Classifying(todo, actions, _) =>
      Then(OfActions(vault, path, actions), OfEvents(vault, root, path, todo))
    case Reading(paths, trees, prefixes, upserts, deletes, _) =>
      OfBatch(vault, path, paths, trees, prefixes, upserts, deletes, map[])
    case Walking(dir, seen, trees, prefixes, upserts, deletes, _) =>
      OfBatch(vault, path, [], trees, prefixes, upserts, deletes, seen)
  }

  function OfMessage(message: Message, path: string): Effect {
    match message
    case Rebuild(notes) => Then(Clear, OfNotes(notes, path))
    case Batch(b) => Then(OfRemovals(b.deletes, b.deletePrefixes, path), OfNotes(b.upserts, path))
    case UpsertOne(note) => if note.path == path then Put(note) else Keep
    case DeleteOne(q) => if q == path then Clear else Keep
  }

  function OfMailbox(mailbox: seq<Message>, path: string): Effect {
    if mailbox == [] then Keep
    else Then(OfMessage(mailbox[0], path), OfMailbox(mailbox[1..], path))
  }

  function OfWalk(walk: Option<NoteMap>, path: string): Effect {
    match walk
    case Some(seen) => Then(Clear, OfMap(seen, path))
    case None => Keep
  }

  function RefreshIf(pending: bool, vault: Node, path: string): Effect {
    if pending then Refresh(vault, path) else Keep
  }

  /** The effect of the whole pipeline, in the order in which the elements
      reach the store. */
  function Pending(root: seq<string>, s: State, path: string): Effect {
    Then(OfMailbox(s.mailbox, path),
    Then(OfWalk(s.walk, path),
    Then(RefreshIf(s.rescans > 0, s.vault, path),
    Then(OfDebouncer(s.vault, root, path, s.debouncer),
    Then(RefreshIf(OverflowSeen(s.debouncer), s.vault, path),
         OfEvents(s.vault, root, path, s.queue))))))
  }

  function Outcome(root: seq<string>, s: State, path: string): Effect {
    Then(Then(Clear, OfMap(s.store, path)), Pending(root, s, path))
  }

  // ---- The invariant -------------------------------------------------------------------------

  /** An action the path filter lets through. */
  predicate Clean(a: WatchAction) {
    match a
    case Upsert(q) => Indexable(q)
    case UpsertTree(d) => ValidPath(d) && Visible(d)
    case _ => true
  }

  predicate CleanPath(root: seq<string>, abs: seq<string>) {
    root < abs && ValidNames(abs[|root|..])
  }

  /** An event of the paired kinds about well-named paths inside the vault. */
  predicate Proper(root: seq<string>, n: Notify) {
    n.Delivered? && !IsOverflow(n.event) && Classify(n.event.kind).Some? ==>
      Classify(n.event.kind) != Some(RenameUnpaired) && forall abs <- n.event.paths :: CleanPath(root, abs)
  }

  predicate ProperAll(root: seq<string>, events: seq<Notify>) {
    forall n <- events :: Proper(root, n)
  }

  predicate WellKept(root: seq<string>, d: Debouncer, rescans: nat) {
    match d
    case Window(events) => ProperAll(root, events)
    case Classifying(todo, actions, _) => ProperAll(root, todo) && forall a <- actions :: Clean(a)
    case Reading(paths, trees, _, _, _, overflow) =>
      && (forall q <- paths :: Indexable(q))
      && (forall t <- trees :: ValidPath(t) && Visible(t) && t in d.prefixes)
      && (overflow ==> rescans > 0)
    case Walking(dir, _, trees, prefixes, _, _, overflow) =>
      && ValidPath(dir) && Visible(dir) && dir in prefixes
      && (forall t <- trees :: ValidPath(t) && Visible(t) && t in prefixes)
      && (overflow ==> rescans > 0)
  }

  /** A walk in progress holds each note under its own path. */
  predicate WalksKeyed(s: State) {
    && (s.walk.Some? ==> Keyed(s.walk.value))
    && (s.debouncer.Walking? ==> Keyed(s.debouncer.seen))
  }

  ghost predicate Invariant(root: seq<string>, s: State) {
    && s.vault.Dir? && WellFormed(s.vault)
    && WalksKeyed(s)
    && ProperAll(root, s.queue)
    && WellKept(root, s.debouncer, s.rescans)
    && forall path :: Right(s.vault, path, Outcome(root, s, path))
  }

  // ---- Composing effects ---------------------------------------------------------------------

  lemma {:induction false} OfActionsConcat(vault: Node, path: string, a: seq<WatchAction>, b: seq<WatchAction>)
    ensures OfActions(vault, path, a + b) == Then(OfActions(vault, path, a), OfActions(vault, path, b))
    decreases |b|
  {
    if b == [] {
      assert a + b == a;
    } else {
      assert (a + b)[..|a + b| - 1] == a + b[..|b| - 1];
      OfActionsConcat(vault, path, a, b[..|b| - 1]);
    }
  }

  lemma {:induction false} OfEventsConcat(vault: Node, root: seq<string>, path: string, a: seq<Notify>, b: seq<Notify>)
    ensures OfEvents(vault, root, path, a + b) == Then(OfEvents(vault, root, path, a), OfEvents(vault, root, path, b))
  {
    if a == [] {
      assert a + b == b;
    } else {
      assert (a + b)[1..] == a[1..] + b;
      OfEventsConcat(vault, root, path, a[1..], b);
    }
  }

  lemma OfEventsOne(vault: Node, root: seq<string>, path: string, n: Notify)
    ensures OfEvents(vault, root, path, [n]) == OfEvent(vault, root, path, n)
  {
    assert [n][1..] == [];
  }

  lemma {:induction false} OfMailboxConcat(a: seq<Message>, b: seq<Message>, path: string)
    ensures OfMailbox(a + b, path) == Then(OfMailbox(a, path), OfMailbox(b, path))
  {
    if a == [] {
      assert a + b == b;
    } else {
      assert (a + b)[1..] == a[1..] + b;
      OfMailboxConcat(a[1..], b, path);
    }
  }

  /** One element may take another's place in a pipeline that comes out
      right: if they have the same effect, if the new effect is itself right, or
      if the old effect was wrong and so is overruled anyway. */
  predicate MayStandFor(vault: Node, path: string, was: Effect, now: Effect) {
    || StatusAt(vault, path).Broken?
    || now == was
    || (!now.Keep? && Right(vault, path, now))
    || (!was.Keep? && !Right(vault, path, was))
  }

  // ---- Handling a message ----------------------------------------------------------------------

  lemma HandledAt(m: NoteMap, message: Message, path: string)
    ensures Then(Clear, OfMap(Handled(m, message), path))
         == Then(Then(Clear, OfMap(m, path)), OfMessage(message, path))
  {
    match message {
      case Rebuild(notes) => PutAllAt(map[], notes, path);
      case Batch(b) => BatchedAt(m, b.upserts, b.deletes, b.deletePrefixes, path);
      case UpsertOne(_) =>
      case DeleteOne(_) =>
    }
  }

  // ---- Coalescing --------------------------------------------------------------------------------

  /** What the last action of a window says about a path survives coalescing. */
  lemma {:induction false} CoalescedNote(vault: Node, actions: seq<WatchAction>, path: string)
    ensures var e := OfActions(vault, path, actions);
            match StatusAt(vault, path)
            case Holds(n) =>
              e == Put(n) ==> LastNote(actions, path) == Some(LastUpsert)
                              || exists d :: Under(path, d) && LastTree(actions, d) == Some(LastUpsert)
            case Broken => true
            case Nothing =>
              e == Clear ==> LastNote(actions, path) == Some(LastDelete)
                             || exists d :: Under(path, d) && LastTree(actions, d).Some?
    decreases |actions|
  {
    if actions != [] {
      var init, a := actions[..|actions| - 1], actions[|actions| - 1];
      CoalescedNote(vault, init, path);
      if OfAction(vault, path, a).Keep? {
        if d :| Under(path, d) && LastTree(init, d) == Some(LastUpsert) {
          assert LastTree(actions, d) == Some(LastUpsert) || a == DeleteTree(d);
        }
        if d :| Under(path, d) && LastTree(init, d).Some? {
          assert LastTree(actions, d).Some?;
        }
      } else if a.UpsertTree? || a.DeleteTree? {
        assert LastTree(actions, a.dir).Some?;
      }
    }
  }

  lemma {:induction false} CoalescedNothing(vault: Node, actions: seq<WatchAction>, path: string)
    requires OfActions(vault, path, actions).Keep? && !StatusAt(vault, path).Broken?
    ensures LastNote(actions, path).None?
    ensures forall d | Under(path, d) :: LastTree(actions, d).None?
    decreases |actions|
  {
    if actions != [] {
      CoalescedNothing(vault, actions[..|actions| - 1], path);
    }
  }

  lemma CoalescedEffect(vault: Node, actions: seq<WatchAction>, b: WatchBatch, path: string)
    requires Coalesces(actions, b)
    ensures MayStandFor(vault, path, OfActions(vault, path, actions),
              OfBatch(vault, path, b.upserts, b.upsertTrees, b.deleteTrees + b.upsertTrees, [], b.deletes, map[]))
  {
    CoalescedNote(vault, actions, path);
    var trees := b.deleteTrees + b.upsertTrees;
    if OfActions(vault, path, actions).Keep? && !StatusAt(vault, path).Broken? {
      CoalescedNothing(vault, actions, path);
      assert !UnderAny(path, trees);
    } else if OfActions(vault, path, actions) == Clear && StatusAt(vault, path).Nothing? {
      if d :| Under(path, d) && LastTree(actions, d).Some? {
        match LastTree(actions, d).value {
          case LastUpsert => assert d in b.upsertTrees;
          case LastDelete => assert d in b.deleteTrees;
        }
        assert d in trees;
      }
      assert path in b.deletes || UnderAny(path, trees);
    } else if StatusAt(vault, path).Holds? && OfActions(vault, path, actions) == Put(StatusAt(vault, path).note) {
      if d :| Under(path, d) && LastTree(actions, d) == Some(LastUpsert) {
        assert d in b.upsertTrees;
      }
      assert path in b.upserts || UnderAny(path, b.upsertTrees);
    }
  }

  lemma {:induction false} LastUpsertNamed(actions: seq<WatchAction>, name: string)
    ensures LastNote(actions, name) == Some(LastUpsert) ==> Upsert(name) in actions
    ensures LastTree(actions, name) == Some(LastUpsert) ==> UpsertTree(name) in actions
    decreases |actions|
  {
    if actions != [] {
      LastUpsertNamed(actions[..|actions| - 1], name);
    }
  }

  // ---- Reading -------------------------------------------------------------------------------------

  lemma IndexedIsStatus(vault: Node, path: string)
    ensures IndexedNote(vault, path) == match StatusAt(vault, path) case Holds(n) => Some(n) case _ => None
  {
  }

  /** What a walk finds, path by path. */
  lemma ScannedAt(vault: Node, dir: string, path: string)
    requires vault.Dir? && WellFormed(vault) && ValidPath(dir) && Visible(dir)
    ensures OfMap(Scanned(vault, Segments(dir)), path)
         == match StatusAt(vault, path)
            case Holds(n) => if Inside(path, dir) then Put(n) else Keep
            case _ => Keep
  {
    PathOfSegments(path);
    PathOfSegments(dir);
    UnderIsProperPrefix(path, dir);
    var d, p := Segments(dir), Segments(path);
    assert d <= p <==> d == p || d < p;
    ScannedBelow(vault, Segments(dir), path);
  }

  lemma ScannedBelow(vault: Node, start: seq<string>, path: string)
    requires vault.Dir? && WellFormed(vault) && NoDots(start)
    ensures OfMap(Scanned(vault, start), path)
         == match StatusAt(vault, path)
            case Holds(n) => if start <= Segments(path) then Put(n) else Keep
            case _ => Keep
  {
    var notes := ScanNotes(vault, start);
    PutAllAt(map[], notes, path);
    match LastNamed(notes, path) {
      case Some(n) => ScanExact(vault, start, n);
      case None =>
        if StatusAt(vault, path).Holds? {
          ScanExact(vault, start, StatusAt(vault, path).note);
        }
    }
  }

  lemma LastNamedAppend(notes: seq<Note>, n: Note, path: string)
    ensures LastNamed(notes + [n], path) == if n.path == path then Some(n) else LastNamed(notes, path)
  {
    assert (notes + [n])[..|notes|] == notes;
  }

  lemma {:induction false} LastNamedConcat(a: seq<Note>, b: seq<Note>, path: string)
    ensures LastNamed(a + b, path) == if LastNamed(b, path).Some? then LastNamed(b, path) else LastNamed(a, path)
    decreases |b|
  {
    if b == [] {
      assert a + b == a;
    } else {
      assert (a + b)[..|a + b| - 1] == a + b[..|b| - 1];
      LastNamedConcat(a, b[..|b| - 1], path);
    }
  }
}
