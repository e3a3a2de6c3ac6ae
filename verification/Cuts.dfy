/** When it matters where the debouncer cuts its windows, on a vault that
    stands still. */
module Cuts {
  import opened Text
  import opened Paths
  import opened Notes
  import opened Store
  import opened Vault
  import opened Watcher
  import opened App
  import opened Protocol
  import opened Convergence
  import opened Windows

  /** The store after a series of windows, each coalesced, built and applied
      on its own. */
  function RunWindows(vault: Node, m: NoteMap, windows: seq<seq<WatchAction>>): NoteMap
    decreases |windows|
  {
    if windows == [] then m else RunWindows(vault, OneWindow(vault, m, windows[0]), windows[1..])
  }

  function OneWindow(vault: Node, m: NoteMap, actions: seq<WatchAction>): NoteMap {
    Handled(m, Batch(Built(vault, Coalesced(actions))))
  }

  function Flatten<A>(windows: seq<seq<A>>): seq<A> {
    if windows == [] then [] else windows[0] + Flatten(windows[1..])
  }

  /** Whatever the store held, every way of cutting the stream leaves the same
      at this path. */
  ghost predicate CutsAgree(vault: Node, actions: seq<WatchAction>, path: string) {
    forall m: NoteMap, cut, other | Flatten(cut) == actions && Flatten(other) == actions ::
      At(RunWindows(vault, m, cut), path) == At(RunWindows(vault, m, other), path)
  }

  // ---- When cutting matters --------------------------------------------------------------

  /** The action names the path or a directory above it. */
  predicate About(a: WatchAction, path: string) {
    match a
    case Upsert(q) => q == path
    case Delete(q) => q == path
    case UpsertTree(d) => Under(path, d)
    case DeleteTree(d) => Under(path, d)
  }

  /** Alone in its window the action can change the path: a walk of the path
      itself finds the note if the path is a file by then. */
  predicate Bears(a: WatchAction, path: string) {
    About(a, path) || a == UpsertTree(path)
  }

  predicate Upserts(a: WatchAction) {
    a.Upsert? || a.UpsertTree?
  }

  function IsAbout(path: string): WatchAction -> bool {
    (a: WatchAction) => About(a, path)
  }

  function IsBearing(path: string): WatchAction -> bool {
    (a: WatchAction) => Bears(a, path)
  }

  /** The index of the last action with the property, or -1. */
  function LastIndex(actions: seq<WatchAction>, f: WatchAction -> bool): (i: int)
    ensures -1 <= i < |actions|
    ensures i >= 0 ==> f(actions[i])
    ensures forall j | i < j < |actions| :: !f(actions[j])
  {
    if actions == [] then -1
    else if f(actions[|actions| - 1]) then |actions| - 1
    else LastIndex(actions[..|actions| - 1], f)
  }

  ghost predicate Touched(actions: seq<WatchAction>, path: string) {
    exists a <- actions :: About(a, path)
  }

  /** Coalescing leaves an upsert of the path, or a walk of it or of a
      directory above it. */
  ghost predicate UpsertSurvives(actions: seq<WatchAction>, path: string) {
    || LastNote(actions, path) == Some(LastUpsert)
    || exists d :: Inside(path, d) && LastTree(actions, d) == Some(LastUpsert)
  }

  predicate LastAboutUpserts(actions: seq<WatchAction>, path: string) {
    var i := LastIndex(actions, IsAbout(path));
    i >= 0 && Upserts(actions[i])
  }

  /** For a readable note: the last bearing action is a delete, but a window
      that ends with it still upserts the path; or it is a walk of the path
      itself, which a later action can undo within a window, and nothing else
      makes sure of the note. */
  ghost predicate ReadableMatters(actions: seq<WatchAction>, path: string) {
    var i := LastIndex(actions, IsBearing(path));
    && i >= 0
    && if !Upserts(actions[i]) then UpsertSurvives(actions[..i + 1], path)
       else
         && actions[i] == UpsertTree(path) && LastTree(actions, path) == Some(LastDelete)
         && !LastAboutUpserts(actions, path)
  }

  /** For a path that cannot be read, though something is there: a delete is
      taken back by an upsert that fails, and no directory removes the path. */
  ghost predicate FailingMatters(actions: seq<WatchAction>, path: string) {
    && Delete(path) in actions && LastNote(actions, path) == Some(LastUpsert)
    && forall d | Under(path, d) :: LastTree(actions, d).None?
  }

  ghost predicate CutsMatter(vault: Node, actions: seq<WatchAction>, path: string) {
    if IndexedNote(vault, path).Some? then ReadableMatters(actions, path)
    else !Absent(vault, path) && FailingMatters(actions, path)
  }

  // ---- Last actions ---------------------------------------------------------------------------

  lemma {:induction false} LastConcat(a: seq<WatchAction>, b: seq<WatchAction>, name: string)
    ensures LastNote(a + b, name) == if LastNote(b, name).Some? then LastNote(b, name) else LastNote(a, name)
    ensures LastTree(a + b, name) == if LastTree(b, name).Some? then LastTree(b, name) else LastTree(a, name)
    decreases |b|
  {
    if b == [] {
      assert a + b == a;
    } else {
      assert (a + b)[..|a + b| - 1] == a + b[..|b| - 1];
      LastConcat(a, b[..|b| - 1], name);
    }
  }

  lemma {:induction false} NamedHasLast(actions: seq<WatchAction>, a: WatchAction)
    requires a in actions
    ensures (a.Upsert? || a.Delete?) ==> LastNote(actions, a.path).Some?
    ensures (a.UpsertTree? || a.DeleteTree?) ==> LastTree(actions, a.dir).Some?
    decreases |actions|
  {
    if a != actions[|actions| - 1] {
      NamedHasLast(actions[..|actions| - 1], a);
    }
  }

  lemma LastOfOne(a: WatchAction, name: string)
    ensures LastNote([a], name) == (if a == Upsert(name) then Some(LastUpsert)
                                    else if a == Delete(name) then Some(LastDelete) else None)
    ensures LastTree([a], name) == (if a == UpsertTree(name) then Some(LastUpsert)
                                    else if a == DeleteTree(name) then Some(LastDelete) else None)
  {
    assert [a][..0] == [];
  }

  lemma {:induction false} LastDeleteNamed(actions: seq<WatchAction>, name: string)
    ensures LastNote(actions, name) == Some(LastDelete) ==> Delete(name) in actions
    ensures LastTree(actions, name) == Some(LastDelete) ==> DeleteTree(name) in actions
    decreases |actions|
  {
    if actions != [] { LastDeleteNamed(actions[..|actions| - 1], name); }
  }

  /** Actions that are not about the path leave no last word on it or on a
      directory above it. */
  lemma Unspoken(actions: seq<WatchAction>, path: string)
    requires !Touched(actions, path)
    ensures LastNote(actions, path).None?
    ensures forall d | Under(path, d) :: LastTree(actions, d).None?
  {
    LastIsNamed(actions, path);
    forall d | Under(path, d) ensures LastTree(actions, d).None? {
      LastIsNamed(actions, d);
    }
  }

  /** Actions that do not bear on the path cannot upsert it. */
  lemma Idle(actions: seq<WatchAction>, path: string)
    requires forall a <- actions :: !Bears(a, path)
    ensures !Touched(actions, path) && !UpsertSurvives(actions, path)
    ensures LastTree(actions, path) != Some(LastUpsert)
  {
    Unspoken(actions, path);
    LastUpsertNamed(actions, path);
  }

  // ---- What one window does to one path ----------------------------------------------------------

  lemma CoalescedIsClean(actions: seq<WatchAction>)
    requires forall a <- actions :: Clean(a)
    ensures CleanBatch(Coalesced(actions))
  {
    var b := Coalesced(actions);
    CoalescedCoalesces(actions);
    forall p | p in b.upserts ensures Indexable(p) { LastUpsertNamed(actions, p); }
    forall d | d in b.upsertTrees ensures ValidPath(d) && Visible(d) { LastUpsertNamed(actions, d); }
  }

  /** A directory above the path was named last by some action. */
  ghost predicate TreeSpoken(actions: seq<WatchAction>, path: string) {
    exists d :: Under(path, d) && LastTree(actions, d).Some?
  }

  /** The effect of a window on a path, from what the actions say last. */
  ghost function WindowAt(vault: Node, actions: seq<WatchAction>, path: string, before: Option<Note>): Option<Note> {
    if IndexedNote(vault, path).Some? && UpsertSurvives(actions, path) then IndexedNote(vault, path)
    else if || LastNote(actions, path) == Some(LastDelete)
            || (LastNote(actions, path) == Some(LastUpsert) && Absent(vault, path))
            || TreeSpoken(actions, path) then None
    else before
  }

  lemma BatchReads(actions: seq<WatchAction>, b: WatchBatch, path: string)
    requires Coalesces(actions, b)
    ensures Reads(b, path) <==> UpsertSurvives(actions, path)
    ensures UnderAny(path, b.deleteTrees + b.upsertTrees) <==> TreeSpoken(actions, path)
  {
    if UnderAny(path, b.deleteTrees + b.upsertTrees) {
      var d :| d in b.deleteTrees + b.upsertTrees && Under(path, d);
      assert LastTree(actions, d).Some?;
    }
    if TreeSpoken(actions, path) {
      var d :| Under(path, d) && LastTree(actions, d).Some?;
      SomeLast(LastTree(actions, d).value);
      assert d in b.deleteTrees + b.upsertTrees;
    }
  }

  lemma SomeLast(l: Last)
    ensures l == LastUpsert || l == LastDelete
  {
  }

  lemma OneWindowAt(vault: Node, m: NoteMap, actions: seq<WatchAction>, path: string)
    requires vault.Dir? && WellFormed(vault) && forall a <- actions :: Clean(a)
    ensures At(OneWindow(vault, m, actions), path) == WindowAt(vault, actions, path, At(m, path))
  {
    var b := Coalesced(actions);
    CoalescedCoalesces(actions);
    CoalescedIsClean(actions);
    BatchEffect(vault, m, b, path);
    BatchReads(actions, b, path);
  }

  /** The effect of several windows, one after the other. */
  ghost function WindowsAt(vault: Node, ws: seq<seq<WatchAction>>, path: string, before: Option<Note>): Option<Note>
    decreases |ws|
  {
    if ws == [] then before else WindowsAt(vault, ws[1..], path, WindowAt(vault, ws[0], path, before))
  }

  lemma {:induction false} RunWindowsAt(vault: Node, m: NoteMap, ws: seq<seq<WatchAction>>, path: string)
    requires vault.Dir? && WellFormed(vault) && forall a <- Flatten(ws) :: Clean(a)
    ensures At(RunWindows(vault, m, ws), path) == WindowsAt(vault, ws, path, At(m, path))
    decreases |ws|
  {
    if ws != [] {
      OneWindowAt(vault, m, ws[0], path);
      RunWindowsAt(vault, OneWindow(vault, m, ws[0]), ws[1..], path);
    }
  }

  // ---- A readable note ------------------------------------------------------------------------------

  lemma LastIndexConcat(a: seq<WatchAction>, b: seq<WatchAction>, f: WatchAction -> bool)
    ensures LastIndex(a + b, f) == if LastIndex(b, f) >= 0 then |a| + LastIndex(b, f) else LastIndex(a, f)
  {
    var i, j := LastIndex(a, f), LastIndex(b, f);
    var k := if j >= 0 then |a| + j else i;
    assert k >= 0 ==> f((a + b)[k]);
    forall n | k < n < |a + b| ensures !f((a + b)[n]) {
      if n >= |a| { assert !f(b[n - |a|]); }
    }
    OnlyLast(a + b, f, k);
  }

  lemma OnlyLast(actions: seq<WatchAction>, f: WatchAction -> bool, k: int)
    requires -1 <= k < |actions| && (k >= 0 ==> f(actions[k]))
    requires forall n | k < n < |actions| :: !f(actions[n])
    ensures LastIndex(actions, f) == k
  {
  }

  lemma NoIndex(actions: seq<WatchAction>, path: string)
    ensures LastIndex(actions, IsAbout(path)) < 0 <==> !Touched(actions, path)
    ensures LastIndex(actions, IsBearing(path)) < 0 ==> forall a <- actions :: !Bears(a, path)
  {
    if Touched(actions, path) {
      var a :| a in actions && About(a, path);
      assert IsAbout(path)(a);
    }
    forall a | a in actions && LastIndex(actions, IsBearing(path)) < 0 ensures !Bears(a, path) {
      assert !IsBearing(path)(a);
    }
  }

  /** The stream around its last action with a property. */
  lemma AfterLast(actions: seq<WatchAction>, path: string)
    ensures var i := LastIndex(actions, IsAbout(path)); i >= 0 ==>
              About(actions[i], path) && !Touched(actions[i + 1..], path)
    ensures var i := LastIndex(actions, IsBearing(path)); i >= 0 ==>
              Bears(actions[i], path) && forall a <- actions[i + 1..] :: !Bears(a, path)
  {
    var i, j := LastIndex(actions, IsAbout(path)), LastIndex(actions, IsBearing(path));
    if i >= 0 { assert IsAbout(path)(actions[i]); }
    if j >= 0 { assert IsBearing(path)(actions[j]); }
    forall n | i < n < |actions| ensures !About(actions[n], path) { assert !IsAbout(path)(actions[n]); }
    forall n | j < n < |actions| ensures !Bears(actions[n], path) { assert !IsBearing(path)(actions[n]); }
  }

  /** An upsert that is the last action about the path survives coalescing. */
  lemma LastUpsertSurvives(w: seq<WatchAction>, path: string)
    requires LastAboutUpserts(w, path)
    ensures UpsertSurvives(w, path)
  {
    var i := LastIndex(w, IsAbout(path));
    var a, rest := w[i], w[i + 1..];
    AfterLast(w, path);
    Unspoken(rest, path);
    var name := if a.Upsert? then a.path else a.dir;
    assert w == (w[..i] + [a]) + rest;
    LastConcat(w[..i] + [a], rest, name);
    LastConcat(w[..i], [a], name);
    LastOfOne(a, name);
  }

  lemma Spoken(w: seq<WatchAction>, path: string)
    ensures Touched(w, path) <==> LastNote(w, path).Some? || TreeSpoken(w, path)
  {
    if Touched(w, path) {
      var a :| a in w && About(a, path);
      NamedHasLast(w, a);
    } else {
      Unspoken(w, path);
    }
  }

  lemma TouchedConcat(a: seq<WatchAction>, b: seq<WatchAction>, path: string)
    ensures Touched(a + b, path) <==> Touched(a, path) || Touched(b, path)
  {
    forall x ensures x in a + b <==> x in a || x in b {}
  }

  /** A window that upserts the path, one that only deletes it, one that does
      neither. */
  lemma ReadableWindow(vault: Node, w: seq<WatchAction>, path: string, before: Option<Note>)
    requires IndexedNote(vault, path).Some?
    ensures WindowAt(vault, w, path, before) == if UpsertSurvives(w, path) then IndexedNote(vault, path)
                                                else if Touched(w, path) then None else before
  {
    Spoken(w, path);
    if LastNote(w, path).Some? { SomeLast(LastNote(w, path).value); }
  }

  lemma {:induction false} IdleWindows(vault: Node, ws: seq<seq<WatchAction>>, path: string, before: Option<Note>)
    requires IndexedNote(vault, path).Some?
    requires forall a <- Flatten(ws) :: !Bears(a, path)
    ensures WindowsAt(vault, ws, path, before) == before
    decreases |ws|
  {
    if ws != [] {
      Idle(ws[0], path);
      ReadableWindow(vault, ws[0], path, before);
      IdleWindows(vault, ws[1..], path, before);
    }
  }

  /** Windows that are not about the path keep a note that is right. */
  lemma {:induction false} UntouchedWindows(vault: Node, ws: seq<seq<WatchAction>>, path: string)
    requires IndexedNote(vault, path).Some? && !Touched(Flatten(ws), path)
    ensures WindowsAt(vault, ws, path, IndexedNote(vault, path)) == IndexedNote(vault, path)
    decreases |ws|
  {
    if ws != [] {
      TouchedConcat(ws[0], Flatten(ws[1..]), path);
      ReadableWindow(vault, ws[0], path, IndexedNote(vault, path));
      UntouchedWindows(vault, ws[1..], path);
    }
  }

  /** The last action that bears on the path is a walk of it that nothing undoes. */
  ghost predicate WalkStands(actions: seq<WatchAction>, path: string) {
    var i := LastIndex(actions, IsBearing(path));
    i >= 0 && actions[i] == UpsertTree(path) && LastTree(actions, path) == Some(LastUpsert)
  }

  /** Either the later windows make sure of the note, or this one does and the
      later ones leave it. */
  lemma NoteSplits(w: seq<WatchAction>, rest: seq<WatchAction>, path: string)
    requires LastAboutUpserts(w + rest, path) || WalkStands(w + rest, path)
    ensures LastAboutUpserts(rest, path) || WalkStands(rest, path)
            || (UpsertSurvives(w, path) && !Touched(rest, path))
  {
    NoIndex(rest, path);
    if LastAboutUpserts(w + rest, path) {
      LastIndexConcat(w, rest, IsAbout(path));
      if !Touched(rest, path) { LastUpsertSurvives(w, path); }
    } else {
      WalkSplits(w, rest, path);
    }
  }

  lemma WalkSplits(w: seq<WatchAction>, rest: seq<WatchAction>, path: string)
    requires WalkStands(w + rest, path)
    ensures WalkStands(rest, path) || (UpsertSurvives(w, path) && !Touched(rest, path))
  {
    LastIndexConcat(w, rest, IsBearing(path));
    LastConcat(w, rest, path);
    NoIndex(rest, path);
    if LastIndex(rest, IsBearing(path)) >= 0 {
      NamedHasLast(rest, UpsertTree(path));
    } else {
      Idle(rest, path);
      assert Inside(path, path);
    }
  }

  lemma {:induction false} EndsWithNote(vault: Node, ws: seq<seq<WatchAction>>, path: string, before: Option<Note>)
    requires IndexedNote(vault, path).Some?
    requires LastAboutUpserts(Flatten(ws), path) || WalkStands(Flatten(ws), path)
    ensures WindowsAt(vault, ws, path, before) == IndexedNote(vault, path)
    decreases |ws|
  {
    var w, rest := ws[0], Flatten(ws[1..]);
    NoteSplits(w, rest, path);
    ReadableWindow(vault, w, path, before);
    if LastAboutUpserts(rest, path) || WalkStands(rest, path) {
      EndsWithNote(vault, ws[1..], path, WindowAt(vault, w, path, before));
    } else {
      UntouchedWindows(vault, ws[1..], path);
    }
  }

  /** The last action that bears on the path is a delete that nothing softens. */
  ghost predicate DeleteStands(actions: seq<WatchAction>, path: string) {
    var i := LastIndex(actions, IsBearing(path));
    i >= 0 && !Upserts(actions[i]) && !UpsertSurvives(actions[..i + 1], path)
  }

  lemma SurvivesLonger(a: seq<WatchAction>, b: seq<WatchAction>, path: string)
    requires UpsertSurvives(b, path)
    ensures UpsertSurvives(a + b, path)
  {
    LastConcat(a, b, path);
    if d :| Inside(path, d) && LastTree(b, d) == Some(LastUpsert) {
      LastConcat(a, b, d);
    }
  }

  /** Idle actions can undo a walk but not bring one about. */
  lemma SurvivedBefore(a: seq<WatchAction>, b: seq<WatchAction>, path: string)
    requires UpsertSurvives(a + b, path) && forall x <- b :: !Bears(x, path)
    ensures UpsertSurvives(a, path)
  {
    Idle(b, path);
    Unspoken(b, path);
    LastConcat(a, b, path);
    if d :| Inside(path, d) && LastTree(a + b, d) == Some(LastUpsert) {
      LastConcat(a, b, d);
      assert LastTree(a, d) == Some(LastUpsert);
    }
  }

  lemma DeleteSplits(w: seq<WatchAction>, rest: seq<WatchAction>, path: string)
    requires DeleteStands(w + rest, path)
    ensures DeleteStands(rest, path)
            || (Touched(w, path) && !UpsertSurvives(w, path) && forall a <- rest :: !Bears(a, path))
  {
    LastIndexConcat(w, rest, IsBearing(path));
    NoIndex(rest, path);
    if LastIndex(rest, IsBearing(path)) >= 0 {
      DeleteStandsLater(w, rest, path);
    } else {
      DeleteStandsHere(w, rest, path);
    }
  }

  lemma DeleteStandsLater(w: seq<WatchAction>, rest: seq<WatchAction>, path: string)
    requires DeleteStands(w + rest, path) && LastIndex(rest, IsBearing(path)) >= 0
    ensures DeleteStands(rest, path)
  {
    var j := LastIndex(rest, IsBearing(path));
    LastIndexConcat(w, rest, IsBearing(path));
    assert (w + rest)[|w| + j] == rest[j];
    NotSoftened(w, rest, j, path);
  }

  lemma NotSoftened(w: seq<WatchAction>, rest: seq<WatchAction>, j: nat, path: string)
    requires j < |rest| && !UpsertSurvives((w + rest)[..|w| + j + 1], path)
    ensures !UpsertSurvives(rest[..j + 1], path)
  {
    assert (w + rest)[..|w| + j + 1] == w + rest[..j + 1];
    if UpsertSurvives(rest[..j + 1], path) { SurvivesLonger(w, rest[..j + 1], path); }
  }

  lemma DeleteStandsHere(w: seq<WatchAction>, rest: seq<WatchAction>, path: string)
    requires DeleteStands(w + rest, path) && LastIndex(rest, IsBearing(path)) < 0
    ensures Touched(w, path) && !UpsertSurvives(w, path)
  {
    var i := LastIndex(w, IsBearing(path));
    LastIndexConcat(w, rest, IsBearing(path));
    AfterLast(w, path);
    assert (w + rest)[..i + 1] == w[..i + 1];
    DeleteStandsBefore(w, i, path);
  }

  lemma DeleteStandsBefore(w: seq<WatchAction>, i: nat, path: string)
    requires i < |w| && Bears(w[i], path) && !Upserts(w[i]) && forall a <- w[i + 1..] :: !Bears(a, path)
    requires !UpsertSurvives(w[..i + 1], path)
    ensures Touched(w, path) && !UpsertSurvives(w, path)
  {
    assert w == w[..i + 1] + w[i + 1..] && w[i] in w;
    if UpsertSurvives(w, path) { SurvivedBefore(w[..i + 1], w[i + 1..], path); }
  }

  lemma {:induction false} EndsDeleted(vault: Node, ws: seq<seq<WatchAction>>, path: string, before: Option<Note>)
    requires IndexedNote(vault, path).Some? && DeleteStands(Flatten(ws), path)
    ensures WindowsAt(vault, ws, path, before) == None
    decreases |ws|
  {
    var w, rest := ws[0], Flatten(ws[1..]);
    DeleteSplits(w, rest, path);
    ReadableWindow(vault, w, path, before);
    if DeleteStands(rest, path) {
      EndsDeleted(vault, ws[1..], path, WindowAt(vault, w, path, before));
    } else {
      IdleWindows(vault, ws[1..], path, None);
    }
  }

  /** Where cutting does not matter every cut comes to the same. */
  lemma ReadableAgree(vault: Node, cut: seq<seq<WatchAction>>, other: seq<seq<WatchAction>>, path: string,
    before: Option<Note>)
    requires IndexedNote(vault, path).Some? && Flatten(cut) == Flatten(other)
    requires !ReadableMatters(Flatten(cut), path)
    ensures WindowsAt(vault, cut, path, before) == WindowsAt(vault, other, path, before)
  {
    var actions := Flatten(cut);
    var i := LastIndex(actions, IsBearing(path));
    if i < 0 {
      NoIndex(actions, path);
      IdleWindows(vault, cut, path, before);
      IdleWindows(vault, other, path, before);
    } else if !Upserts(actions[i]) {
      EndsDeleted(vault, cut, path, before);
      EndsDeleted(vault, other, path, before);
    } else {
      UpsertIsSure(actions, path);
      EndsWithNote(vault, cut, path, before);
      EndsWithNote(vault, other, path, before);
    }
  }

  lemma UpsertIsSure(actions: seq<WatchAction>, path: string)
    requires !ReadableMatters(actions, path)
    requires var i := LastIndex(actions, IsBearing(path)); i >= 0 && Upserts(actions[i])
    ensures LastAboutUpserts(actions, path) || WalkStands(actions, path)
  {
    var i := LastIndex(actions, IsBearing(path));
    AfterLast(actions, path);
    if About(actions[i], path) {
      forall n | i < n < |actions| ensures !IsAbout(path)(actions[n]) {
        assert actions[n] in actions[i + 1..];
      }
      OnlyLast(actions, IsAbout(path), i);
    } else {
      NamedHasLast(actions, UpsertTree(path));
      SomeLast(LastTree(actions, path).value);
    }
  }

  lemma TwoWindows(vault: Node, a: seq<WatchAction>, b: seq<WatchAction>, path: string, before: Option<Note>)
    ensures Flatten([a, b]) == a + b
    ensures WindowsAt(vault, [a, b], path, before) == WindowAt(vault, b, path, WindowAt(vault, a, path, before))
  {
    assert [a, b][1..] == [b] && [b][1..] == [];
    assert Flatten([b]) == b + [];
    assert WindowsAt(vault, [b], path, WindowAt(vault, a, path, before))
        == WindowAt(vault, b, path, WindowAt(vault, a, path, before));
  }

  lemma ThreeWindows(vault: Node, a: seq<WatchAction>, b: seq<WatchAction>, c: seq<WatchAction>, path: string,
    before: Option<Note>)
    ensures Flatten([a, b, c]) == a + b + c
    ensures WindowsAt(vault, [a, b, c], path, before)
         == WindowAt(vault, c, path, WindowAt(vault, b, path, WindowAt(vault, a, path, before)))
  {
    assert [a, b, c][1..] == [b, c];
    TwoWindows(vault, b, c, path, WindowAt(vault, a, path, before));
    assert a + (b + c) == a + b + c;
  }

  lemma OneWindowOnly(vault: Node, a: seq<WatchAction>, path: string, before: Option<Note>)
    ensures Flatten([a]) == a && WindowsAt(vault, [a], path, before) == WindowAt(vault, a, path, before)
  {
    assert [a][1..] == [] && a + [] == a;
  }

  /** A delete in a window of its own removes the path. */
  lemma DeleteAlone(vault: Node, a: WatchAction, path: string, before: Option<Note>)
    requires IndexedNote(vault, path).Some? && About(a, path) && !Upserts(a)
    ensures WindowAt(vault, [a], path, before) == None
  {
    assert a in [a];
    forall name ensures LastNote([a], name) != Some(LastUpsert) && LastTree([a], name) != Some(LastUpsert) {
      LastOfOne(a, name);
    }
    ReadableWindow(vault, [a], path, before);
  }

  lemma IdleWindow(vault: Node, w: seq<WatchAction>, path: string, before: Option<Note>)
    requires IndexedNote(vault, path).Some? && forall a <- w :: !Bears(a, path)
    ensures WindowAt(vault, w, path, before) == before
  {
    Idle(w, path);
    ReadableWindow(vault, w, path, before);
  }

  /** Two cuts that differ, from an empty store. */
  ghost predicate Differ(vault: Node, actions: seq<WatchAction>, path: string, cut: seq<seq<WatchAction>>,
    other: seq<seq<WatchAction>>, before: Option<Note>)
  {
    && Flatten(cut) == actions && Flatten(other) == actions
    && WindowsAt(vault, cut, path, before) != WindowsAt(vault, other, path, before)
  }

  /** A window that ends with the delete keeps the note; one that holds only
      the delete loses it. */
  lemma SoftDeleteDiffers(vault: Node, actions: seq<WatchAction>, path: string)
    returns (cut: seq<seq<WatchAction>>, other: seq<seq<WatchAction>>)
    requires IndexedNote(vault, path).Some? && ReadableMatters(actions, path)
    requires !Upserts(actions[LastIndex(actions, IsBearing(path))])
    ensures Differ(vault, actions, path, cut, other, None)
  {
    var i := LastIndex(actions, IsBearing(path));
    var early, a, rest := actions[..i], actions[i], actions[i + 1..];
    AfterLast(actions, path);
    assert actions[..i + 1] == early + [a];
    assert actions == actions[..i + 1] + rest;
    cut, other := [early + [a], rest], [early, [a], rest];
    KeptThenIdle(vault, early + [a], rest, path);
    LostThen(vault, early, a, rest, path);
    IdleWindow(vault, rest, path, None);
  }

  /** A window that upserts the path, then one that does not bear on it. */
  lemma KeptThenIdle(vault: Node, early: seq<WatchAction>, rest: seq<WatchAction>, path: string)
    requires IndexedNote(vault, path).Some? && UpsertSurvives(early, path) && forall a <- rest :: !Bears(a, path)
    ensures Flatten([early, rest]) == early + rest
    ensures WindowsAt(vault, [early, rest], path, None) == IndexedNote(vault, path)
  {
    TwoWindows(vault, early, rest, path, None);
    ReadableWindow(vault, early, path, None);
    IdleWindow(vault, rest, path, IndexedNote(vault, path));
  }

  /** Anything, then a delete alone, then a window that leaves things as they are. */
  lemma LostThen(vault: Node, early: seq<WatchAction>, a: WatchAction, rest: seq<WatchAction>, path: string)
    requires IndexedNote(vault, path).Some? && About(a, path) && !Upserts(a)
    ensures Flatten([early, [a], rest]) == early + [a] + rest
    ensures WindowAt(vault, rest, path, None) == None ==>
              WindowsAt(vault, [early, [a], rest], path, None) == None
  {
    ThreeWindows(vault, early, [a], rest, path, None);
    DeleteAlone(vault, a, path, WindowAt(vault, early, path, None));
  }

  /** A window in which the walk is undone does not upsert the path. */
  lemma UndoneWalk(vault: Node, w: seq<WatchAction>, path: string, before: Option<Note>)
    requires IndexedNote(vault, path).Some? && !Touched(w, path) && LastTree(w, path) == Some(LastDelete)
    ensures WindowAt(vault, w, path, before) == before
  {
    Unspoken(w, path);
    ReadableWindow(vault, w, path, before);
  }

  /** A window that ends with the walk indexes the note; one that goes on to
      undo it does not. */
  lemma UndoneWalkDiffers(vault: Node, actions: seq<WatchAction>, path: string)
    returns (cut: seq<seq<WatchAction>>, other: seq<seq<WatchAction>>)
    requires IndexedNote(vault, path).Some? && ReadableMatters(actions, path)
    requires Upserts(actions[LastIndex(actions, IsBearing(path))])
    ensures Differ(vault, actions, path, cut, other, None)
  {
    cut := WalkKept(vault, actions, path);
    other := WalkUndone(vault, actions, path);
  }

  lemma WalkKept(vault: Node, actions: seq<WatchAction>, path: string) returns (cut: seq<seq<WatchAction>>)
    requires IndexedNote(vault, path).Some?
    requires var i := LastIndex(actions, IsBearing(path)); i >= 0 && actions[i] == UpsertTree(path)
    ensures Flatten(cut) == actions && WindowsAt(vault, cut, path, None) == IndexedNote(vault, path)
  {
    AfterLast(actions, path);
    cut := WalkKeptAt(vault, actions, LastIndex(actions, IsBearing(path)), path);
  }

  lemma WalkKeptAt(vault: Node, actions: seq<WatchAction>, i: nat, path: string) returns (cut: seq<seq<WatchAction>>)
    requires IndexedNote(vault, path).Some? && i < |actions| && actions[i] == UpsertTree(path)
    requires forall a <- actions[i + 1..] :: !Bears(a, path)
    ensures Flatten(cut) == actions && WindowsAt(vault, cut, path, None) == IndexedNote(vault, path)
  {
    var early, rest := actions[..i], actions[i + 1..];
    cut := [early + [UpsertTree(path)], rest];
    WalkLast(early, path);
    KeptThenIdle(vault, early + [UpsertTree(path)], rest, path);
    assert actions == early + [UpsertTree(path)] + rest;
  }

  lemma WalkLast(early: seq<WatchAction>, path: string)
    ensures UpsertSurvives(early + [UpsertTree(path)], path)
  {
    LastConcat(early, [UpsertTree(path)], path);
    LastOfOne(UpsertTree(path), path);
    assert Inside(path, path);
  }

  lemma WalkUndone(vault: Node, actions: seq<WatchAction>, path: string) returns (cut: seq<seq<WatchAction>>)
    requires IndexedNote(vault, path).Some? && UpsertTree(path) in actions
    requires LastTree(actions, path) == Some(LastDelete) && !LastAboutUpserts(actions, path)
    requires var i := LastIndex(actions, IsBearing(path)); i >= 0 && actions[i] == UpsertTree(path)
    ensures Flatten(cut) == actions && WindowsAt(vault, cut, path, None) == None
  {
    var i, j := LastIndex(actions, IsBearing(path)), LastIndex(actions, IsAbout(path));
    AfterLast(actions, path);
    NoIndex(actions, path);
    if j < 0 {
      cut := [actions];
      OneWindowOnly(vault, actions, path, None);
      UndoneWalk(vault, actions, path, None);
    } else {
      var early, a, rest := actions[..j], actions[j], actions[j + 1..];
      assert actions == (early + [a]) + rest;
      cut := [early, [a], rest];
      UndoneAfter(actions, path);
      LostThen(vault, early, a, rest, path);
      UndoneWalk(vault, rest, path, None);
    }
  }

  /** After the last action about the path the walk is done and undone. */
  lemma UndoneAfter(actions: seq<WatchAction>, path: string)
    requires LastTree(actions, path) == Some(LastDelete) && !LastAboutUpserts(actions, path)
    requires var i := LastIndex(actions, IsBearing(path)); i >= 0 && actions[i] == UpsertTree(path)
    ensures var j := LastIndex(actions, IsAbout(path)); LastTree(actions[j + 1..], path) == Some(LastDelete)
  {
    var i, j := LastIndex(actions, IsBearing(path)), LastIndex(actions, IsAbout(path));
    LaterBearing(actions, path);
    UndoneIn(actions, j + 1, i, path);
  }

  lemma UndoneIn(actions: seq<WatchAction>, from: nat, i: nat, path: string)
    requires from <= i < |actions| && actions[i] == UpsertTree(path) && LastTree(actions, path) == Some(LastDelete)
    ensures LastTree(actions[from..], path) == Some(LastDelete)
  {
    var early, rest := actions[..from], actions[from..];
    assert actions == early + rest && rest[i - from] == UpsertTree(path);
    NamedHasLast(rest, UpsertTree(path));
    LastConcat(early, rest, path);
  }

  /** What is about the path bears on it. */
  lemma LaterBearing(actions: seq<WatchAction>, path: string)
    requires !LastAboutUpserts(actions, path)
    requires var i := LastIndex(actions, IsBearing(path)); i >= 0 && Upserts(actions[i])
    ensures LastIndex(actions, IsAbout(path)) < LastIndex(actions, IsBearing(path))
  {
    var i, j := LastIndex(actions, IsBearing(path)), LastIndex(actions, IsAbout(path));
    AfterLast(actions, path);
    forall n | i < n < |actions| ensures !Bears(actions[n], path) {
      assert actions[n] in actions[i + 1..];
    }
  }

  // ---- A path without a readable note --------------------------------------------------------------

  /** The window removes the path. */
  ghost predicate Removes(vault: Node, w: seq<WatchAction>, path: string) {
    || LastNote(w, path) == Some(LastDelete)
    || (LastNote(w, path) == Some(LastUpsert) && Absent(vault, path))
    || TreeSpoken(w, path)
  }

  lemma TreeSpokenConcat(a: seq<WatchAction>, b: seq<WatchAction>, path: string)
    ensures TreeSpoken(a + b, path) <==> TreeSpoken(a, path) || TreeSpoken(b, path)
  {
    forall d ensures LastTree(a + b, d).Some? <==> LastTree(a, d).Some? || LastTree(b, d).Some? {
      LastConcat(a, b, d);
    }
  }

  lemma RemovesConcat(vault: Node, a: seq<WatchAction>, b: seq<WatchAction>, path: string)
    ensures Removes(vault, a + b, path) ==> Removes(vault, a, path) || Removes(vault, b, path)
    ensures Absent(vault, path) && (Removes(vault, a, path) || Removes(vault, b, path)) ==>
              Removes(vault, a + b, path)
  {
    LastConcat(a, b, path);
    TreeSpokenConcat(a, b, path);
    if LastNote(a, path).Some? { SomeLast(LastNote(a, path).value); }
    if LastNote(b, path).Some? { SomeLast(LastNote(b, path).value); }
  }

  /** Without a readable note windows only remove, and what is gone stays gone. */
  lemma {:induction false} Gone(vault: Node, ws: seq<seq<WatchAction>>, path: string)
    requires IndexedNote(vault, path).None?
    ensures WindowsAt(vault, ws, path, None) == None
    decreases |ws|
  {
    if ws != [] { Gone(vault, ws[1..], path); }
  }

  lemma {:induction false} RemovedByAny(vault: Node, ws: seq<seq<WatchAction>>, path: string, before: Option<Note>)
    requires IndexedNote(vault, path).None? && Removes(vault, Flatten(ws), path)
    ensures WindowsAt(vault, ws, path, before) == None
    decreases |ws|
  {
    if ws != [] {
      RemovesConcat(vault, ws[0], Flatten(ws[1..]), path);
      if Removes(vault, ws[0], path) {
        Gone(vault, ws[1..], path);
      } else {
        RemovedByAny(vault, ws[1..], path, before);
      }
    }
  }

  /** No cut of the stream makes a window that removes the path. */
  ghost predicate NeverRemoves(vault: Node, actions: seq<WatchAction>, path: string) {
    && !TreeSpoken(actions, path)
    && (Delete(path) !in actions)
    && (Absent(vault, path) ==> Upsert(path) !in actions)
  }

  lemma {:induction false} KeptByAll(vault: Node, ws: seq<seq<WatchAction>>, path: string, before: Option<Note>)
    requires IndexedNote(vault, path).None? && NeverRemoves(vault, Flatten(ws), path)
    ensures WindowsAt(vault, ws, path, before) == before
    decreases |ws|
  {
    if ws != [] {
      var w, rest := ws[0], Flatten(ws[1..]);
      TreeSpokenConcat(w, rest, path);
      LastDeleteNamed(w, path);
      LastUpsertNamed(w, path);
      KeptByAll(vault, ws[1..], path, before);
    }
  }

  /** Either every cut removes the path, or none does, or it matters. */
  lemma RemovedOrKept(vault: Node, actions: seq<WatchAction>, path: string)
    requires Absent(vault, path) || !FailingMatters(actions, path)
    ensures Removes(vault, actions, path) || NeverRemoves(vault, actions, path)
  {
    if Delete(path) in actions { NamedHasLast(actions, Delete(path)); }
    if Upsert(path) in actions { NamedHasLast(actions, Upsert(path)); }
    if LastNote(actions, path).Some? { SomeLast(LastNote(actions, path).value); }
  }

  lemma UnreadableAgree(vault: Node, cut: seq<seq<WatchAction>>, other: seq<seq<WatchAction>>, path: string,
    before: Option<Note>)
    requires IndexedNote(vault, path).None? && Flatten(cut) == Flatten(other)
    requires Absent(vault, path) || !FailingMatters(Flatten(cut), path)
    ensures WindowsAt(vault, cut, path, before) == WindowsAt(vault, other, path, before)
  {
    RemovedOrKept(vault, Flatten(cut), path);
    if Removes(vault, Flatten(cut), path) {
      RemovedByAny(vault, cut, path, before);
      RemovedByAny(vault, other, path, before);
    } else {
      KeptByAll(vault, cut, path, before);
      KeptByAll(vault, other, path, before);
    }
  }

  /** One window keeps what the store had; a window for the delete alone
      removes it. */
  lemma FailingDiffers(vault: Node, actions: seq<WatchAction>, path: string, before: Option<Note>)
    returns (cut: seq<seq<WatchAction>>, other: seq<seq<WatchAction>>)
    requires IndexedNote(vault, path).None? && !Absent(vault, path)
    requires FailingMatters(actions, path) && before.Some?
    ensures Differ(vault, actions, path, cut, other, before)
  {
    cut := [actions];
    OneWindowOnly(vault, actions, path, before);
    FailingKept(vault, actions, path, before);
    other := DeletedAlone(vault, actions, path, before);
  }

  lemma FailingKept(vault: Node, actions: seq<WatchAction>, path: string, before: Option<Note>)
    requires IndexedNote(vault, path).None? && !Absent(vault, path) && FailingMatters(actions, path)
    ensures WindowAt(vault, actions, path, before) == before
  {
  }

  lemma DeletedAlone(vault: Node, actions: seq<WatchAction>, path: string, before: Option<Note>)
    returns (cut: seq<seq<WatchAction>>)
    requires IndexedNote(vault, path).None? && Delete(path) in actions
    ensures Flatten(cut) == actions && WindowsAt(vault, cut, path, before) == None
  {
    var i :| 0 <= i < |actions| && actions[i] == Delete(path);
    cut := [actions[..i], [Delete(path)], actions[i + 1..]];
    GoneForGood(vault, actions[..i], actions[i + 1..], path, before);
    assert actions == actions[..i] + [Delete(path)] + actions[i + 1..];
  }

  lemma GoneForGood(vault: Node, early: seq<WatchAction>, rest: seq<WatchAction>, path: string, before: Option<Note>)
    requires IndexedNote(vault, path).None?
    ensures Flatten([early, [Delete(path)], rest]) == early + [Delete(path)] + rest
    ensures WindowsAt(vault, [early, [Delete(path)], rest], path, before) == None
  {
    ThreeWindows(vault, early, [Delete(path)], rest, path, before);
    LastOfOne(Delete(path), path);
  }

  // ---- The exact condition ------------------------------------------------------------------------------

  lemma WindowsAgree(vault: Node, cut: seq<seq<WatchAction>>, other: seq<seq<WatchAction>>, path: string,
    before: Option<Note>)
    requires Flatten(cut) == Flatten(other) && !CutsMatter(vault, Flatten(cut), path)
    ensures WindowsAt(vault, cut, path, before) == WindowsAt(vault, other, path, before)
  {
    if IndexedNote(vault, path).Some? {
      ReadableAgree(vault, cut, other, path, before);
    } else {
      UnreadableAgree(vault, cut, other, path, before);
    }
  }

  lemma WindowsDiffer(vault: Node, actions: seq<WatchAction>, path: string, note: Note)
    returns (before: Option<Note>, cut: seq<seq<WatchAction>>, other: seq<seq<WatchAction>>)
    requires CutsMatter(vault, actions, path)
    ensures Differ(vault, actions, path, cut, other, before) && (before == None || before == Some(note))
  {
    if IndexedNote(vault, path).None? {
      before := Some(note);
      cut, other := FailingDiffers(vault, actions, path, before);
    } else {
      before := None;
      if Upserts(actions[LastIndex(actions, IsBearing(path))]) {
        cut, other := UndoneWalkDiffers(vault, actions, path);
      } else {
        cut, other := SoftDeleteDiffers(vault, actions, path);
      }
    }
  }

  /** For every stream of actions and every path: all ways of cutting the
      stream into windows agree on the path, whatever the store held, exactly
      unless cutting matters there.  On a path that is not found it never does. */
  lemma CutsAgreeExactly(vault: Node, actions: seq<WatchAction>, path: string)
    requires vault.Dir? && WellFormed(vault) && forall a <- actions :: Clean(a)
    ensures CutsAgree(vault, actions, path) <==> !CutsMatter(vault, actions, path)
  {
    if CutsMatter(vault, actions, path) {
      var note := NoteAt(path, Content(map[], "", "", 0, "", 0, false));
      var before, cut, other := WindowsDiffer(vault, actions, path, note);
      var m: NoteMap := if before == None then map[] else map[path := note];
      RunWindowsAt(vault, m, cut, path);
      RunWindowsAt(vault, m, other, path);
      assert At(RunWindows(vault, m, cut), path) != At(RunWindows(vault, m, other), path);
    } else {
      forall m: NoteMap, cut, other | Flatten(cut) == actions && Flatten(other) == actions
        ensures At(RunWindows(vault, m, cut), path) == At(RunWindows(vault, m, other), path)
      {
        RunWindowsAt(vault, m, cut, path);
        RunWindowsAt(vault, m, other, path);
        WindowsAgree(vault, cut, other, path, At(m, path));
      }
    }
  }
}
