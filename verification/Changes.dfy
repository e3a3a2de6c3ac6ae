/** The events a vault change raises cover everything the change touches. */
module Changes {
  import opened Text
  import opened Paths
  import opened Vault
  import opened Watcher
  import opened Protocol
  import opened Convergence

  // ---- Events about one path -------------------------------------------------------------

  function ModifyEffect(vault: Node, path: string, q: string): Effect {
    if Visible(q) && IsMarkdown(q) then OfAction(vault, path, Upsert(q)) else Keep
  }

  function AppearEffect(vault: Node, path: string, q: string): Effect {
    if !ViewAt(vault, q).Folder? then ModifyEffect(vault, path, q)
    else if Visible(q) && Under(path, q) then Refresh(vault, path)
    else Keep
  }

  function VanishEffect(path: string, q: string): Effect {
    if Visible(q) && ((IsMarkdown(q) && path == q) || Under(path, q)) then Clear else Keep
  }

  lemma RelativeIs(root: seq<string>, q: string)
    requires ValidPath(q)
    ensures Watcher.Relative(root, Absolute(root, q)) == if Visible(q) then Some(q) else None
    ensures CleanPath(root, Absolute(root, q))
  {
    assert Absolute(root, q)[|root|..] == Segments(q);
    PathOfSegments(q);
  }

  lemma RelativeOf(root: seq<string>, q: string)
    requires ValidPath(q)
    ensures CleanPath(root, Absolute(root, q))
    ensures NoteRelative(root, Absolute(root, q)) == if Visible(q) && IsMarkdown(q) then Some(q) else None
    ensures TreeRelative(root, Absolute(root, q)) == if Visible(q) then Some(q) else None
  {
    RelativeIs(root, q);
    PathOfSegments(q);
    NoteRelativeIs(root, Segments(q));
    LastNotSlash(q);
  }

  lemma IsDirIsFolder(vault: Node, root: seq<string>, q: string)
    ensures IsDirAt(vault, root, Absolute(root, q)) <==> ViewAt(vault, q).Folder?
  {
    assert Absolute(root, q)[|root|..] == Segments(q);
  }

  lemma OneAction(vault: Node, path: string, a: WatchAction)
    ensures OfActions(vault, path, [a]) == OfAction(vault, path, a)
  {
    assert [a][..0] == [];
  }

  lemma ModifiedEffect(vault: Node, root: seq<string>, path: string, q: string)
    requires ValidPath(q)
    ensures OfActions(vault, path, Modified(root)(Absolute(root, q))) == ModifyEffect(vault, path, q)
  {
    RelativeOf(root, q);
    OneAction(vault, path, Upsert(q));
  }

  lemma AppearedEffect(vault: Node, root: seq<string>, path: string, q: string)
    requires ValidPath(q)
    ensures OfActions(vault, path, Appeared(vault, root)(Absolute(root, q))) == AppearEffect(vault, path, q)
  {
    RelativeOf(root, q);
    IsDirIsFolder(vault, root, q);
    ModifiedEffect(vault, root, path, q);
    OneAction(vault, path, UpsertTree(q));
  }

  lemma VanishedEffect(vault: Node, root: seq<string>, path: string, q: string)
    requires ValidPath(q)
    ensures OfActions(vault, path, Vanished(root)(Absolute(root, q))) == VanishEffect(path, q)
  {
    RelativeOf(root, q);
    OneAction(vault, path, Delete(q));
    OneAction(vault, path, DeleteTree(q));
    OfActionsConcat(vault, path, [Delete(q)], [DeleteTree(q)]);
    assert [] + [DeleteTree(q)] == [DeleteTree(q)];
    UnderIsProperPrefix(path, q);
  }

  // ---- Directories and what lies in them ------------------------------------------------

  lemma BelowSplits(path: string, dir: string) returns (rest: seq<string>)
    requires ValidPath(dir) && Under(path, dir)
    ensures rest != [] && Segments(path) == Segments(dir) + rest
  {
    UnderIsProperPrefix(path, dir);
    rest := Segments(path)[|Segments(dir)|..];
  }

  lemma FolderAbove(vault: Node, path: string, dir: string)
    requires ValidPath(dir) && Under(path, dir) && !ViewAt(vault, path).Missing?
    ensures ViewAt(vault, dir).Folder? && !EmptyFolder(vault, dir)
  {
    var rest := BelowSplits(path, dir);
    ResolveAppend(vault, Segments(dir), rest);
  }

  lemma HiddenInside(path: string, dir: string)
    requires ValidPath(dir) && Inside(path, dir) && !Visible(dir)
    ensures !Visible(path)
  {
    if path != dir {
      var rest := BelowSplits(path, dir);
      var s :| s in Segments(dir) && DotPrefixed(s);
      assert s in Segments(path);
    }
  }

  lemma InsideBelow(path: string, dir: string, top: string)
    requires ValidPath(dir) && ValidPath(top) && Under(path, dir) && Inside(dir, top)
    ensures Under(path, top)
  {
    if dir != top { UnderTransitive(path, dir, top); }
  }

  // ---- What pending events depend on ------------------------------------------------------

  /** Nothing a pending event could look at for this path has changed, but
      that a free name may have become a directory. */
  ghost predicate Stable(before: Node, after: Node, path: string) {
    && StatusAt(after, path) == StatusAt(before, path)
    && (forall d {:trigger Under(path, d)} | ValidPath(d) && Visible(d) && Under(path, d) ::
          ViewAt(after, d).Folder? <==> ViewAt(before, d).Folder?)
    && (IsMarkdown(path) && Visible(path) && ViewAt(before, path).Folder? ==> ViewAt(after, path).Folder?)
  }

  /** The same effect, unless it was the futile read of a path without a file. */
  predicate SameOrProbe(was: Effect, now: Effect) {
    now == was || was.Probe?
  }

  lemma AppearAt(vault: Node, path: string)
    requires !Under(path, path)
    ensures AppearEffect(vault, path, path)
         == if ViewAt(vault, path).Folder? then Keep else ModifyEffect(vault, path, path)
  {
  }

  lemma AppearAbove(vault: Node, path: string, q: string)
    requires path != q && Under(path, q)
    ensures AppearEffect(vault, path, q)
         == if ViewAt(vault, q).Folder? && Visible(q) then Refresh(vault, path) else Keep
  {
  }

  lemma AppearElsewhere(vault: Node, path: string, q: string)
    requires path != q && !Under(path, q)
    ensures AppearEffect(vault, path, q) == Keep
  {
  }

  lemma ModifyStable(before: Node, after: Node, path: string)
    requires StatusAt(after, path) == StatusAt(before, path)
    ensures ModifyEffect(before, path, path) == ModifyEffect(after, path, path)
    ensures StatusAt(before, path).Nothing? ==>
              ModifyEffect(before, path, path).Keep? || ModifyEffect(before, path, path).Probe?
  {
  }

  lemma AppearStable(before: Node, after: Node, path: string, q: string)
    requires Stable(before, after, path) && ValidPath(q)
    ensures SameOrProbe(AppearEffect(before, path, q), AppearEffect(after, path, q))
  {
    if path == q {
      NotUnderItself(q);
      AppearAt(before, path);
      AppearAt(after, path);
      ModifyStable(before, after, path);
    } else if Under(path, q) {
      AppearAbove(before, path, q);
      AppearAbove(after, path, q);
    } else {
      AppearElsewhere(before, path, q);
      AppearElsewhere(after, path, q);
    }
  }

  /** Untouched by an operation: whatever is pending for the path stays valid. */
  ghost predicate Untouched(before: Node, after: Node, path: string) {
    StatusAt(after, path).Broken? || Stable(before, after, path)
  }

  ghost predicate Sound(before: Node, after: Node, path: string, e: Effect) {
    if e.Keep? then Untouched(before, after, path) else Right(after, path, e)
  }

  lemma SameFolders(before: Node, after: Node, q: string)
    requires ViewAt(before, q).Regular? && ViewAt(after, q).Regular?
    requires forall p | p != q :: ViewAt(after, p) == ViewAt(before, p)
    ensures forall d :: ViewAt(after, d).Folder? <==> ViewAt(before, d).Folder?
  {
    forall d ensures ViewAt(after, d).Folder? <==> ViewAt(before, d).Folder? {
      if d != q {}
    }
  }

  lemma ModifyElsewhere(vault: Node, path: string, q: string)
    requires path != q
    ensures ModifyEffect(vault, path, q) == Keep
  {
  }

  /** A file written: its note is read afresh, or nothing is claimed of it. */
  lemma WrittenFile(vault: Node, q: string)
    requires ViewAt(vault, q).Regular?
    ensures ModifyEffect(vault, q, q).Keep? ==> StatusAt(vault, q).Broken? || !Visible(q) || !IsMarkdown(q)
    ensures !ModifyEffect(vault, q, q).Keep? ==> Right(vault, q, ModifyEffect(vault, q, q))
  {
  }

  lemma WriteSound(before: Node, after: Node, q: string, kind: EventKind, path: string)
    requires OpChanges(before, WriteFile(q, kind), after)
    ensures Sound(before, after, path, ModifyEffect(after, path, q))
  {
    SameFolders(before, after, q);
    if path == q {
      WrittenFile(after, q);
      if !Visible(q) || !IsMarkdown(q) { SameStatus(before, after, q); }
    } else {
      ModifyElsewhere(after, path, q);
      SameStatus(before, after, path);
    }
  }

  lemma SameStatus(before: Node, after: Node, path: string)
    requires ViewAt(after, path) == ViewAt(before, path) || !Visible(path) || !IsMarkdown(path)
             || (!ViewAt(after, path).Regular? && !ViewAt(before, path).Regular?)
    ensures StatusAt(after, path) == StatusAt(before, path)
  {
  }

  lemma EnterSound(before: Node, after: Node, q: string, kind: EventKind, path: string)
    requires OpChanges(before, Enter(q, kind), after)
    ensures Sound(before, after, path, AppearEffect(after, path, q))
  {
    forall d | ValidPath(d) && Visible(d) && Under(path, d)
      ensures (ViewAt(after, d).Folder? <==> ViewAt(before, d).Folder?) || AppearEffect(after, path, q) != Keep
    {
      if Inside(d, q) {
        InsideBelow(path, d, q);
        if !Visible(q) { HiddenInside(d, q); }
        EnterFolder(before, after, q, kind, d);
      }
    }
    if !Visible(q) && Inside(path, q) { HiddenInside(path, q); }
    EnterFolder(before, after, q, kind, path);
    var e := AppearEffect(after, path, q);
    if e.Keep? {
      if !StatusAt(after, path).Broken? {
        SameStatus(before, after, path);
      }
    } else if ViewAt(after, q).Folder? {
    } else {
      assert path == q;
    }
  }

  /** Where a file enters, nothing lies below it before or after. */
  lemma EnterFolder(before: Node, after: Node, q: string, kind: EventKind, d: string)
    requires OpChanges(before, Enter(q, kind), after)
    ensures Inside(d, q) && ViewAt(after, q).Regular? ==>
              !ViewAt(after, d).Folder? && !ViewAt(before, d).Folder?
    ensures Under(d, q) && ViewAt(after, q).Regular? ==> ViewAt(after, d).Missing? && ViewAt(before, d).Missing?
    ensures Under(d, q) ==> ViewAt(before, d).Missing?
  {
    if Under(d, q) {
      if !ViewAt(after, d).Missing? { FolderAbove(after, d, q); }
      if !ViewAt(before, d).Missing? { FolderAbove(before, d, q); }
    }
  }

  lemma LeaveSound(before: Node, after: Node, q: string, kind: EventKind, path: string)
    requires OpChanges(before, Leave(q, kind), after)
    ensures Sound(before, after, path, VanishEffect(path, q))
  {
    if Inside(path, q) {
      if !Visible(q) { HiddenInside(path, q); }
    }
    if VanishEffect(path, q).Keep? {
      forall d | ValidPath(d) && Visible(d) && Under(path, d)
        ensures ViewAt(after, d).Folder? <==> ViewAt(before, d).Folder?
      {
        if Inside(d, q) {
          InsideBelow(path, d, q);
          if !Visible(q) { HiddenInside(d, q); }
        }
      }
    }
  }

  lemma NotInsideBoth(before: Node, after: Node, f: string, t: string, path: string)
    requires OpChanges(before, Move(f, t), after)
    ensures !(Inside(path, f) && Inside(path, t))
  {
    if Inside(path, f) && Inside(path, t) {
      if path != f && path != t {
        UnderNested(path, f, t);
      }
      assert Under(f, t);
      FolderAbove(before, f, t);
    }
  }

  function MoveEffect(after: Node, path: string, f: string, t: string): Effect {
    Then(VanishEffect(path, f), AppearEffect(after, path, t))
  }

  /** A directory at or below either end moves only with what is in it. */
  lemma MovedFolder(before: Node, after: Node, f: string, t: string, path: string, d: string)
    requires OpChanges(before, Move(f, t), after) && MoveEffect(after, path, f, t).Keep?
    requires ValidPath(d) && Visible(d) && Under(path, d)
    ensures ViewAt(after, d).Folder? <==> ViewAt(before, d).Folder?
  {
    if Inside(d, f) {
      InsideBelow(path, d, f);
      if !Visible(f) { HiddenInside(d, f); }
    } else if Inside(d, t) {
      MovedFolderIn(before, after, f, t, path, d);
    }
  }

  lemma MovedFolderIn(before: Node, after: Node, f: string, t: string, path: string, d: string)
    requires OpChanges(before, Move(f, t), after) && MoveEffect(after, path, f, t).Keep?
    requires ValidPath(d) && Visible(d) && Under(path, d) && Inside(d, t) && !Inside(d, f)
    ensures ViewAt(after, d).Folder? <==> ViewAt(before, d).Folder?
  {
    InsideBelow(path, d, t);
    if !Visible(t) { HiddenInside(d, t); }
    MoveTarget(before, after, f, t, d);
  }

  lemma MovedAway(before: Node, after: Node, f: string, t: string, path: string)
    requires OpChanges(before, Move(f, t), after) && Inside(path, f)
    ensures MoveEffect(after, path, f, t).Keep? ==>
              StatusAt(after, path) == StatusAt(before, path) && !(IsMarkdown(path) && Visible(path))
    ensures !MoveEffect(after, path, f, t).Keep? ==> Right(after, path, MoveEffect(after, path, f, t))
  {
    NotInsideBoth(before, after, f, t, path);
    if !Visible(f) { HiddenInside(path, f); }
    assert ViewAt(after, path).Missing?;
  }

  lemma MovedIn(before: Node, after: Node, f: string, t: string, path: string)
    requires OpChanges(before, Move(f, t), after) && Inside(path, t)
    ensures MoveEffect(after, path, f, t).Keep? ==>
              StatusAt(after, path).Broken? || StatusAt(after, path) == StatusAt(before, path)
    ensures MoveEffect(after, path, f, t).Keep? && IsMarkdown(path) && Visible(path) && ViewAt(before, path).Folder? ==>
              StatusAt(after, path).Broken? || ViewAt(after, path).Folder?
    ensures !MoveEffect(after, path, f, t).Keep? ==> Right(after, path, MoveEffect(after, path, f, t))
  {
    NotInsideBoth(before, after, f, t, path);
    MoveTarget(before, after, f, t, path);
    if path == t {
      NotUnderItself(t);
      AppearAt(after, path);
    } else {
      AppearAbove(after, path, t);
      if !Visible(t) { HiddenInside(path, t); }
    }
  }

  lemma MovedElsewhere(before: Node, after: Node, f: string, t: string, path: string)
    requires OpChanges(before, Move(f, t), after) && !Inside(path, f) && !Inside(path, t)
    ensures MoveEffect(after, path, f, t).Keep? && ViewAt(after, path) == ViewAt(before, path)
    ensures StatusAt(after, path) == StatusAt(before, path)
  {
  }

  /** Whichever end the path is at, and if at none. */
  lemma MoveSound(before: Node, after: Node, f: string, t: string, path: string)
    requires OpChanges(before, Move(f, t), after)
    ensures Sound(before, after, path, Then(VanishEffect(path, f), AppearEffect(after, path, t)))
  {
    if Inside(path, f) {
      MovedAway(before, after, f, t, path);
    } else if Inside(path, t) {
      MovedIn(before, after, f, t, path);
    } else {
      MovedElsewhere(before, after, f, t, path);
    }
    if MoveEffect(after, path, f, t).Keep? {
      forall d | ValidPath(d) && Visible(d) && Under(path, d)
        ensures ViewAt(after, d).Folder? <==> ViewAt(before, d).Folder?
      {
        MovedFolder(before, after, f, t, path, d);
      }
    }
  }

  /** What a move finds and leaves at its target. */
  lemma MoveTarget(before: Node, after: Node, f: string, t: string, d: string)
    requires OpChanges(before, Move(f, t), after)
    ensures ViewAt(after, t) == ViewAt(before, f)
    ensures Under(d, t) ==> ViewAt(before, d).Missing?
    ensures Under(d, t) && ViewAt(after, t).Regular? ==> ViewAt(after, d).Missing?
  {
    NotInsideBoth(before, after, f, t, t);
    assert f + t[|t|..] == f;
    if Under(d, t) {
      if !ViewAt(after, d).Missing? { FolderAbove(after, d, t); }
      if !ViewAt(before, d).Missing? { FolderAbove(before, d, t); }
    }
  }
}
