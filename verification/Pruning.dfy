/** Which files the scan and the watcher let through, character by character. */
module Pruning {
  import opened Text
  import opened Paths
  import opened Notes
  import opened Vault
  import opened Watcher

  /** The name begins with a dot. */
  predicate Dotted(name: string) {
    name != [] && name[0] == '.'
  }

  /** At least one character before a final `.md`. */
  predicate NamesNote(name: string) {
    |name| > 3 && name[|name| - 3] == '.' && name[|name| - 2] == 'm' && name[|name| - 1] == 'd'
  }

  lemma DottedExactly(name: string)
    ensures DotPrefixed(name) <==> Dotted(name)
  {
  }

  lemma NamesNoteExactly(name: string)
    ensures Extension(name) == Some("md") <==> NamesNote(name)
  {
    var i := LastDot(name);
    if i > 0 && name[i + 1..] == "md" {
      assert name[i + 1] == name[i + 1..][0] && name[i + 2] == name[i + 1..][1];
    }
    if NamesNote(name) {
      assert name[i + 1..] == ['m', 'd'];
    }
  }

  /** No component of the path begins with a dot, and the last names a note. */
  predicate LetThrough(path: string) {
    var segs := Segments(path);
    (forall s <- segs :: !Dotted(s)) && NamesNote(segs[|segs| - 1])
  }

  lemma VisibleExactly(path: string)
    ensures Visible(path) <==> forall s <- Segments(path) :: !Dotted(s)
  {
    forall s | s in Segments(path) ensures DotPrefixed(s) <==> Dotted(s) { DottedExactly(s); }
  }

  lemma LetThroughExactly(path: string)
    ensures Visible(path) && IsMarkdown(path) <==> LetThrough(path)
  {
    VisibleExactly(path);
    NamesNoteExactly(Segments(path)[|Segments(path)| - 1]);
  }

  /** What a scan of the vault returns: a note for each readable file whose
      path is let through, with the file's content, and nothing else. */
  lemma ScanIsWhatIsThere(root: Node, n: Note)
    requires root.Dir? && WellFormed(root)
    ensures n in ScanNotes(root, [])
       <==> && LetThrough(n.path)
            && exists c :: Resolve(root, Segments(n.path)) == Found(File(Readable(c)))
                 && n == Note(n.path, c.frontmatter, c.body, c.rawBytes, c.lastModified, c.etag, c.size)
  {
    ScanExact(root, [], n);
    LetThroughExactly(n.path);
    if c :| Resolve(root, Segments(n.path)) == Found(File(Readable(c)))
            && n == Note(n.path, c.frontmatter, c.body, c.rawBytes, c.lastModified, c.etag, c.size) {
      assert n == NoteAt(n.path, c);
    }
  }

  /** What it reports as failed. */
  lemma FailuresAreWhatFails(root: Node, path: string)
    requires root.Dir? && WellFormed(root)
    ensures path in ScanFailures(root, [])
       <==> LetThrough(path) && Resolve(root, Segments(path)) == Found(File(Unreadable))
  {
    FailureExact(root, [], path);
    LetThroughExactly(path);
  }

  /** The watcher lets the same paths through, and for directories asks for
      the dots alone. */
  lemma WatcherLetsThrough(root: seq<string>, path: string)
    requires ValidPath(path)
    ensures NoteRelative(root, root + Segments(path)) == if LetThrough(path) then Some(path) else None
    ensures TreeRelative(root, root + Segments(path))
         == if forall s <- Segments(path) :: !Dotted(s) then Some(path) else None
  {
    PathOfSegments(path);
    NoteRelativeIs(root, Segments(path));
    LetThroughExactly(path);
    VisibleExactly(path);
    LastNotSlash(path);
    assert (root + Segments(path))[|root|..] == Segments(path);
  }

  /** The root itself, and what lies outside, is no directory to walk. */
  lemma RootIsNoTree(root: seq<string>, abs: seq<string>)
    requires abs == root || !(root <= abs)
    ensures TreeRelative(root, abs) == None
  {
    if abs == root { assert abs[|root|..] == []; }
  }
}
