/** One batch on a vault that stands still. */
module Windows {
  import opened Text
  import opened Paths
  import opened Notes
  import opened Store
  import opened Vault
  import opened Watcher
  import opened App
  import opened Protocol

  predicate CleanBatch(b: WatchBatch) {
    && (forall p <- b.upserts :: Indexable(p))
    && (forall d <- b.upsertTrees :: ValidPath(d) && Visible(d))
  }

  function At(m: NoteMap, path: string): Option<Note> {
    if path in m then Some(m[path]) else None
  }

  /** The batch reads this path, on its own or in a walk. */
  ghost predicate Reads(b: WatchBatch, path: string) {
    path in b.upserts || exists d <- b.upsertTrees :: Inside(path, d)
  }

  lemma ReadsFound(vault: Node, b: WatchBatch, path: string)
    requires vault.Dir? && WellFormed(vault) && CleanBatch(b)
    ensures LastNamed(Built(vault, b).upserts, path)
         == if Reads(b, path) then IndexedNote(vault, path) else None
  {
    var notes := Built(vault, b).upserts;
    if LastNamed(notes, path).Some? {
      FoundWasRead(vault, b, LastNamed(notes, path).value);
    }
    if Reads(b, path) && IndexedNote(vault, path).Some? {
      ReadIsFound(vault, b, path);
    }
  }

  lemma FoundWasRead(vault: Node, b: WatchBatch, n: Note)
    requires vault.Dir? && WellFormed(vault) && CleanBatch(b)
    requires n in Built(vault, b).upserts
    ensures Reads(b, n.path) && IndexedNote(vault, n.path) == Some(n)
  {
    CollectMember(b.upserts, ReadNote(vault), n);
    CollectMember(b.upsertTrees, WalkedNotes(vault), n);
    if n in Collect(b.upsertTrees, WalkedNotes(vault)) {
      var d :| d in b.upsertTrees && n in WalkedNotes(vault)(d);
      ScanExact(vault, Segments(d), n);
      SegmentsInside(n.path, d);
    }
  }

  lemma ReadIsFound(vault: Node, b: WatchBatch, path: string)
    requires vault.Dir? && WellFormed(vault) && CleanBatch(b)
    requires Reads(b, path) && IndexedNote(vault, path).Some?
    ensures IndexedNote(vault, path).value in Built(vault, b).upserts
  {
    var n := IndexedNote(vault, path).value;
    CollectMember(b.upserts, ReadNote(vault), n);
    CollectMember(b.upsertTrees, WalkedNotes(vault), n);
    if path in b.upserts {
      assert n in ReadNote(vault)(path);
    } else {
      var d :| d in b.upsertTrees && Inside(path, d);
      SegmentsInside(path, d);
      ScanExact(vault, Segments(d), n);
      assert n in WalkedNotes(vault)(d);
    }
  }

  lemma SegmentsInside(path: string, d: string)
    requires ValidPath(d)
    ensures Inside(path, d) <==> Segments(d) <= Segments(path)
  {
    PathOfSegments(path);
    PathOfSegments(d);
    UnderIsProperPrefix(path, d);
    var s, t := Segments(d), Segments(path);
    assert s <= t <==> s == t || s < t;
  }

  /** Nothing of that name, with directories all the way to it. */
  predicate Absent(vault: Node, path: string) {
    Resolve(vault, Segments(path)) == NotFound
  }

  /** The exact effect of one batch, path by path: a readable path the batch
      reads ends with the vault's note; otherwise a deleted path, a path found
      missing, or one under any listed directory ends absent; every other path,
      an unreadable one outside all directories included, is unchanged. */
  lemma BatchEffect(vault: Node, m: NoteMap, b: WatchBatch, path: string)
    requires vault.Dir? && WellFormed(vault) && CleanBatch(b)
    ensures At(Handled(m, Batch(Built(vault, b))), path) ==
            if Reads(b, path) && IndexedNote(vault, path).Some? then IndexedNote(vault, path)
            else if || path in b.deletes
                    || (path in b.upserts && Absent(vault, path))
                    || UnderAny(path, b.deleteTrees + b.upsertTrees) then None
            else At(m, path)
  {
    var r := Built(vault, b);
    BatchedAt(m, r.upserts, r.deletes, r.deletePrefixes, path);
    ReadsFound(vault, b, path);
    MissingExactly(vault, b, path);
  }

  /** The paths added to the deletes are those of the batch where nothing is. */
  lemma MissingExactly(vault: Node, b: WatchBatch, path: string)
    ensures path in Collect(b.upserts, MissingNote(vault)) <==> path in b.upserts && Absent(vault, path)
  {
    CollectMember(b.upserts, MissingNote(vault), path);
    assert forall p :: path in MissingNote(vault)(p) <==> p == path && Absent(vault, path);
  }

  /** A file to be read that is gone by then is deleted, whatever the store
      held; so is one whose directory went with it. */
  lemma MissingIsDeleted(vault: Node, m: NoteMap, b: WatchBatch, path: string)
    requires vault.Dir? && WellFormed(vault) && CleanBatch(b)
    requires path in b.upserts
    requires !Resolve(vault, Segments(path)).Found? && !FileAbove(vault, Segments(path))
    ensures At(Handled(m, Batch(Built(vault, b))), path) == None
  {
    BlockedExactly(vault, Segments(path));
    BatchEffect(vault, m, b, path);
  }

  /** Where a directory, a file above it or an unreadable file is found
      instead, the entry stays, unless the batch removes it for other reasons. */
  lemma FailedReadKeeps(vault: Node, m: NoteMap, b: WatchBatch, path: string)
    requires vault.Dir? && WellFormed(vault) && CleanBatch(b)
    requires var found := Resolve(vault, Segments(path));
             if found.Found? then found.node.Dir? || found.node.state.Unreadable? else FileAbove(vault, Segments(path))
    requires path !in b.deletes && forall d <- b.deleteTrees + b.upsertTrees :: !Under(path, d)
    ensures At(Handled(m, Batch(Built(vault, b))), path) == At(m, path)
  {
    BlockedExactly(vault, Segments(path));
    BatchEffect(vault, m, b, path);
  }
}
