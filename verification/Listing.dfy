/** Folder listings, and the paths requests name. */
module Listing {
  import opened Text
  import opened Ordered
  import opened Paths
  import opened Notes
  import opened Store
  import opened Encoding
  import opened Query
  import opened Evaluate
  import opened Sorting

  datatype FolderEntry =
    | FileEntry(name: string, lastModified: int, size: nat)
    | DirEntry(name: string, lastModified: int)

  datatype FileInfo = FileInfo(lastModified: int, size: nat)

  // ---- Grouping the flat path map -------------------------------------------------------

  function PrefixOfFolder(folder: string): string {
    if folder == [] then [] else folder + "/"
  }

  /** The path of what is called `name` in the folder. */
  function Child(folder: string, name: string): string {
    PrefixOfFolder(folder) + name
  }

  /** `strip_prefix` succeeds and leaves something. */
  predicate Inside(path: string, folder: string) {
    PrefixOfFolder(folder) < path
  }

  function Relative(path: string, folder: string): string
    requires Inside(path, folder)
  {
    path[|PrefixOfFolder(folder)|..]
  }

  /** `path` lies in the subfolder called `name`. */
  predicate Beneath(path: string, folder: string, name: string) {
    '/' !in name && Child(folder, name) + "/" <= path
  }

  function AddFile(files: map<string, FileInfo>, folder: string, path: string, note: Note): map<string, FileInfo> {
    if Inside(path, folder) && Find(Relative(path, folder), '/').None?
    then files[Relative(path, folder) := FileInfo(note.lastModified, note.size)]
    else files
  }

  function AddDir(dirs: map<string, int>, folder: string, path: string, note: Note): map<string, int> {
    if !Inside(path, folder) then dirs
    else
      match Find(Relative(path, folder), '/')
      case None => dirs
      case Some(idx) =>
        var name := Relative(path, folder)[..idx];
        dirs[name := if name in dirs && dirs[name] >= note.lastModified then dirs[name] else note.lastModified]
  }

  function FilesOf(m: NoteMap, folder: string, keys: seq<string>): map<string, FileInfo>
    requires forall k <- keys :: k in m
  {
    if keys == [] then map[]
    else
      var last := keys[|keys| - 1];
      AddFile(FilesOf(m, folder, keys[..|keys| - 1]), folder, last, m[last])
  }

  function DirsOf(m: NoteMap, folder: string, keys: seq<string>): map<string, int>
    requires forall k <- keys :: k in m
  {
    if keys == [] then map[]
    else
      var last := keys[|keys| - 1];
      AddDir(DirsOf(m, folder, keys[..|keys| - 1]), folder, last, m[last])
  }

  function FileEntries(files: map<string, FileInfo>, names: seq<string>): seq<FolderEntry>
    requires forall n <- names :: n in files
  {
    seq(|names|, i requires 0 <= i < |names| =>
      assert names[i] in names; FileEntry(names[i], files[names[i]].lastModified, files[names[i]].size))
  }

  function DirEntries(dirs: map<string, int>, names: seq<string>): seq<FolderEntry>
    requires forall n <- names :: n in dirs
  {
    seq(|names|, i requires 0 <= i < |names| => assert names[i] in names; DirEntry(names[i], dirs[names[i]]))
  }

  function ByName(): (FolderEntry, FolderEntry) -> Ordering {
    (a: FolderEntry, b: FolderEntry) => Compare(a.name, b.name)
  }

  function Unsorted(m: NoteMap, folder: string): seq<FolderEntry> {
    var keys := Ascending(m.Keys);
    var files, dirs := FilesOf(m, folder, keys), DirsOf(m, folder, keys);
    FileEntries(files, Ascending(files.Keys)) + DirEntries(dirs, Ascending(dirs.Keys))
  }

  /** The answer to a listing request; nothing where the folder is unknown. */
  function Listing(m: NoteMap, folder: string): Option<seq<FolderEntry>> {
    if folder != [] && !exists k <- m :: Inside(k, folder) then None
    else Some(Sort(ByName(), Unsorted(m, folder)))
  }

  /** What one pass over the notes in this order finds. */
  ghost predicate Grouped(m: NoteMap, folder: string, keys: seq<string>, files: map<string, FileInfo>,
    dirs: map<string, int>, foundAny: bool)
  {
    && (forall k <- keys :: k in m)
    && files == FilesOf(m, folder, keys) && dirs == DirsOf(m, folder, keys)
    && (foundAny <==> exists k <- keys :: Inside(k, folder))
  }

  lemma GroupStep(m: NoteMap, folder: string, keys: seq<string>, path: string, files: map<string, FileInfo>,
    dirs: map<string, int>, foundAny: bool)
    requires Grouped(m, folder, keys, files, dirs, foundAny) && path in m
    ensures Grouped(m, folder, keys + [path], AddFile(files, folder, path, m[path]),
                    AddDir(dirs, folder, path, m[path]), foundAny || Inside(path, folder))
  {
    assert (keys + [path])[..|keys|] == keys;
  }

  method Place(files: map<string, FileInfo>, dirs: map<string, int>, folder: string, path: string, note: Note)
    returns (newFiles: map<string, FileInfo>, newDirs: map<string, int>)
    requires Inside(path, folder)
    ensures newFiles == AddFile(files, folder, path, note)
    ensures newDirs == AddDir(dirs, folder, path, note)
  {
    newFiles, newDirs := files, dirs;
    var rel := Relative(path, folder);
    match Find(rel, '/') {
      case Some(idx) =>
        var name := rel[..idx];
        if name in dirs {
          if note.lastModified > dirs[name] { newDirs := dirs[name := note.lastModified]; }
        } else {
          newDirs := dirs[name := note.lastModified];
        }
      case None =>
        newFiles := files[rel := FileInfo(note.lastModified, note.size)];
    }
  }

  /** The loop over the notes, in the order of their keys. */
  method Group(notes: NoteMap, folder: string, keys: seq<string>)
    returns (files: map<string, FileInfo>, dirs: map<string, int>, foundAny: bool)
    requires forall k <- keys :: k in notes
    ensures Grouped(notes, folder, keys, files, dirs, foundAny)
  {
    files, dirs, foundAny := map[], map[], false;
    for i := 0 to |keys|
      invariant Grouped(notes, folder, keys[..i], files, dirs, foundAny)
    {
      GroupStep(notes, folder, keys[..i], keys[i], files, dirs, foundAny);
      assert keys[..i + 1] == keys[..i] + [keys[i]];
      if !Inside(keys[i], folder) { continue; }
      foundAny := true;
      files, dirs := Place(files, dirs, folder, keys[i], notes[keys[i]]);
    }
    assert keys[..|keys|] == keys;
  }

  method PushFiles(files: map<string, FileInfo>, names: seq<string>) returns (entries: seq<FolderEntry>)
    requires forall n <- names :: n in files
    ensures entries == FileEntries(files, names)
  {
    entries := [];
    for i := 0 to |names|
      invariant entries == FileEntries(files, names[..i])
    {
      entries := entries + [FileEntry(names[i], files[names[i]].lastModified, files[names[i]].size)];
    }
    assert names[..|names|] == names;
  }

  method PushDirs(dirs: map<string, int>, names: seq<string>) returns (entries: seq<FolderEntry>)
    requires forall n <- names :: n in dirs
    ensures entries == DirEntries(dirs, names)
  {
    entries := [];
    for i := 0 to |names|
      invariant entries == DirEntries(dirs, names[..i])
    {
      entries := entries + [DirEntry(names[i], dirs[names[i]])];
    }
    assert names[..|names|] == names;
  }

  method ListFolder(store: NoteStore, folder: string) returns (r: Option<seq<FolderEntry>>)
    ensures r == Listing(store.inner, folder)
  {
    var files, dirs, foundAny := Group(store.inner, folder, Ascending(store.inner.Keys));
    if !foundAny && folder != [] { return None; }
    var entries := PushFiles(files, Ascending(files.Keys));
    var more := PushDirs(dirs, Ascending(dirs.Keys));
    r := Some(Sort(ByName(), entries + more));
  }

  // ---- What the entries are ------------------------------------------------------------------

  /** A file entry stands for the note directly in the folder. */
  predicate StandsFor(e: FolderEntry, folder: string, path: string, note: Note) {
    && e == FileEntry(e.name, note.lastModified, note.size)
    && e.name != [] && '/' !in e.name && path == Child(folder, e.name)
  }

  /** `t` is the latest time among the given notes in the subfolder. */
  ghost predicate LatestBeneath(m: NoteMap, folder: string, name: string, keys: set<string>, t: int)
    requires keys <= m.Keys
  {
    && (exists k <- keys :: Beneath(k, folder, name) && m[k].lastModified == t)
    && (forall k <- keys :: Beneath(k, folder, name) ==> m[k].lastModified <= t)
  }

  lemma DirectlyInside(path: string, folder: string, name: string)
    ensures Inside(path, folder) && Find(Relative(path, folder), '/').None? && Relative(path, folder) == name
       <==> name != [] && '/' !in name && path == Child(folder, name)
  {
    if Inside(path, folder) { assert path == PrefixOfFolder(folder) + Relative(path, folder); }
    if name != [] && path == Child(folder, name) { assert path[|PrefixOfFolder(folder)|..] == name; }
  }

  lemma BeneathText(path: string, prefix: string, name: string)
    requires prefix + name + "/" <= path && '/' !in name
    ensures prefix < path
    ensures Find(path[|prefix|..], '/') == Some(|name|) && path[|prefix|..][..|name|] == name
  {
    var rest := path[|prefix| + |name| + 1..];
    assert path == prefix + name + "/" + rest;
    assert path[|prefix|..] == name + ['/'] + rest;
    FindIs(name, rest, '/');
  }

  lemma DeeperInside(path: string, folder: string, name: string)
    ensures Beneath(path, folder, name) <==>
            && Inside(path, folder) && Find(Relative(path, folder), '/').Some?
            && Relative(path, folder)[..Find(Relative(path, folder), '/').value] == name
  {
    if Inside(path, folder) && Find(Relative(path, folder), '/').Some? {
      TextBeneath(path, PrefixOfFolder(folder));
    }
    if Beneath(path, folder, name) {
      BeneathText(path, PrefixOfFolder(folder), name);
    }
  }

  lemma TextBeneath(path: string, prefix: string)
    requires prefix < path && Find(path[|prefix|..], '/').Some?
    ensures var rel := path[|prefix|..]; prefix + rel[..Find(rel, '/').value] + "/" <= path
  {
    var rel := path[|prefix|..];
    var i := Find(rel, '/').value;
    assert path[..|prefix| + i + 1] == prefix + rel[..i] + "/";
  }

  lemma {:induction false} FilesExact(m: NoteMap, folder: string, keys: seq<string>, name: string)
    requires forall k <- keys :: k in m
    ensures var files, path := FilesOf(m, folder, keys), Child(folder, name);
            && (name in files <==> name != [] && '/' !in name && path in keys)
            && (name in files ==> files[name] == FileInfo(m[path].lastModified, m[path].size))
  {
    if keys != [] {
      var init, last := keys[..|keys| - 1], keys[|keys| - 1];
      FilesExact(m, folder, init, name);
      assert keys == init + [last];
      DirectlyInside(last, folder, name);
    }
  }

  lemma {:induction false} DirsExact(m: NoteMap, folder: string, keys: seq<string>, name: string)
    requires forall k <- keys :: k in m
    ensures var dirs, all := DirsOf(m, folder, keys), set k | k in keys;
            && (name in dirs <==> exists k <- keys :: Beneath(k, folder, name))
            && (name in dirs ==> LatestBeneath(m, folder, name, all, dirs[name]))
  {
    if keys != [] {
      var init, last := keys[..|keys| - 1], keys[|keys| - 1];
      DirsExact(m, folder, init, name);
      assert keys == init + [last];
      assert (set k | k in keys) == (set k | k in init) + {last};
      DeeperInside(last, folder, name);
    }
  }

  // ---- The listing is exact ------------------------------------------------------------------

  /** A directory entry carries the latest time of the notes in it. */
  ghost predicate Gathers(m: NoteMap, folder: string, e: FolderEntry) {
    e.DirEntry? && LatestBeneath(m, folder, e.name, m.Keys, e.lastModified)
  }

  /** An entry for each note directly in the folder and for each subfolder
      with notes in it, and nothing else; none of them twice. */
  ghost predicate Describes(m: NoteMap, folder: string, entries: seq<FolderEntry>) {
    && (forall e :: e in entries <==> (exists k <- m :: StandsFor(e, folder, k, m[k])) || Gathers(m, folder, e))
    && (forall i, j | 0 <= i < j < |entries| :: entries[i] != entries[j])
  }

  lemma FileEntriesHave(files: map<string, FileInfo>, names: seq<string>, e: FolderEntry)
    requires forall n <- names :: n in files
    ensures e in FileEntries(files, names)
       <==> e.name in names && e == FileEntry(e.name, files[e.name].lastModified, files[e.name].size)
  {
    var entries := FileEntries(files, names);
    if e in entries {
      var i :| 0 <= i < |entries| && entries[i] == e;
      assert names[i] == e.name;
    }
    if e.name in names && e == FileEntry(e.name, files[e.name].lastModified, files[e.name].size) {
      var i :| 0 <= i < |names| && names[i] == e.name;
      assert entries[i] == e;
    }
  }

  lemma DirEntriesHave(dirs: map<string, int>, names: seq<string>, e: FolderEntry)
    requires forall n <- names :: n in dirs
    ensures e in DirEntries(dirs, names) <==> e.name in names && e == DirEntry(e.name, dirs[e.name])
  {
    var entries := DirEntries(dirs, names);
    if e in entries {
      var i :| 0 <= i < |entries| && entries[i] == e;
      assert names[i] == e.name;
    }
    if e.name in names && e == DirEntry(e.name, dirs[e.name]) {
      var i :| 0 <= i < |names| && names[i] == e.name;
      assert entries[i] == e;
    }
  }

  lemma FilesListed(m: NoteMap, folder: string, keys: seq<string>, names: seq<string>, e: FolderEntry)
    requires forall k :: k in keys <==> k in m
    requires forall n :: n in names <==> n in FilesOf(m, folder, keys)
    ensures e in FileEntries(FilesOf(m, folder, keys), names) <==> exists k <- m :: StandsFor(e, folder, k, m[k])
  {
    FilesExact(m, folder, keys, e.name);
    FileEntriesHave(FilesOf(m, folder, keys), names, e);
    var path := Child(folder, e.name);
    if e in FileEntries(FilesOf(m, folder, keys), names) {
      assert StandsFor(e, folder, path, m[path]);
    }
  }

  lemma DirsListed(m: NoteMap, folder: string, keys: seq<string>, names: seq<string>, e: FolderEntry)
    requires forall k :: k in keys <==> k in m
    requires forall n :: n in names <==> n in DirsOf(m, folder, keys)
    ensures e in DirEntries(DirsOf(m, folder, keys), names) <==> Gathers(m, folder, e)
  {
    DirsExact(m, folder, keys, e.name);
    assert (set k | k in keys) == m.Keys;
    DirEntriesHave(DirsOf(m, folder, keys), names, e);
  }

  lemma UnsortedHas(m: NoteMap, folder: string, e: FolderEntry)
    ensures e in Unsorted(m, folder) <==> (exists k <- m :: StandsFor(e, folder, k, m[k])) || Gathers(m, folder, e)
  {
    var keys := Ascending(m.Keys);
    FilesListed(m, folder, keys, Ascending(FilesOf(m, folder, keys).Keys), e);
    DirsListed(m, folder, keys, Ascending(DirsOf(m, folder, keys).Keys), e);
  }

  lemma ByNamePreorder(entries: seq<FolderEntry>)
    ensures Preorder(ByName(), multiset(entries))
  {
    var cmp := ByName();
    forall a, b ensures cmp(b, a) == cmp(a, b).Reverse() { CompareReverse(a.name, b.name); }
    forall a, b, c | !cmp(a, b).Greater? && !cmp(b, c).Greater? ensures !cmp(a, c).Greater? {
      AtMostTransitive(a.name, b.name, c.name);
    }
  }

  lemma UnsortedDescribes(m: NoteMap, folder: string)
    ensures Describes(m, folder, Unsorted(m, folder))
  {
    UnsortedDistinct(m, folder);
    forall e
      ensures e in Unsorted(m, folder) <==> (exists k <- m :: StandsFor(e, folder, k, m[k])) || Gathers(m, folder, e)
    {
      UnsortedHas(m, folder, e);
    }
  }

  /** A listing describes the folder, in the order of the names; it is missing
      exactly when the folder holds no note. */
  lemma ListingExact(m: NoteMap, folder: string)
    ensures Listing(m, folder).None? <==> folder != [] && forall k <- m :: !Inside(k, folder)
    ensures var r := Listing(m, folder); r.Some? ==> Describes(m, folder, r.value) && Sorted(ByName(), r.value)
  {
    UnsortedDescribes(m, folder);
    SortDescribes(m, folder, Unsorted(m, folder));
  }

  /** The names of a listing ascend byte by byte. */
  lemma ListingAscends(m: NoteMap, folder: string, i: nat, j: nat)
    requires Listing(m, folder).Some? && i < j < |Listing(m, folder).value|
    ensures AtMost(Listing(m, folder).value[i].name, Listing(m, folder).value[j].name)
  {
    ListingExact(m, folder);
    assert !ByName()(Listing(m, folder).value[i], Listing(m, folder).value[j]).Greater?;
  }

  lemma SortDescribes(m: NoteMap, folder: string, entries: seq<FolderEntry>)
    requires Describes(m, folder, entries)
    ensures Describes(m, folder, Sort(ByName(), entries)) && Sorted(ByName(), Sort(ByName(), entries))
  {
    ByNamePreorder(entries);
    SortSorts(ByName(), entries, multiset(entries));
    SortPermutes(ByName(), entries);
    DistinctPermutes(entries, Sort(ByName(), entries));
    SameMembers(entries, Sort(ByName(), entries));
  }

  lemma SameMembers<A(!new)>(xs: seq<A>, ys: seq<A>)
    requires multiset(xs) == multiset(ys)
    ensures forall x :: x in xs <==> x in ys
  {
    forall x ensures x in xs <==> x in ys {
      assert x in xs <==> x in multiset(xs);
      assert x in ys <==> x in multiset(ys);
    }
  }

  lemma AscendingDistinct(keys: seq<string>, i: nat, j: nat)
    requires StrictlyAscending(keys) && i < j < |keys|
    ensures keys[i] != keys[j]
  {
    CompareEqual(keys[i], keys[j]);
  }

  lemma UnsortedDistinct(m: NoteMap, folder: string)
    ensures forall i, j | 0 <= i < j < |Unsorted(m, folder)| :: Unsorted(m, folder)[i] != Unsorted(m, folder)[j]
  {
    var keys := Ascending(m.Keys);
    var files, dirs := FilesOf(m, folder, keys), DirsOf(m, folder, keys);
    AscendingSorted(files.Keys);
    AscendingSorted(dirs.Keys);
    EntriesDistinct(files, dirs, Ascending(files.Keys), Ascending(dirs.Keys));
  }

  lemma EntriesDistinct(files: map<string, FileInfo>, dirs: map<string, int>, f: seq<string>, d: seq<string>)
    requires StrictlyAscending(f) && forall n <- f :: n in files
    requires StrictlyAscending(d) && forall n <- d :: n in dirs
    ensures var all := FileEntries(files, f) + DirEntries(dirs, d);
            forall i, j | 0 <= i < j < |all| :: all[i] != all[j]
  {
    var all := FileEntries(files, f) + DirEntries(dirs, d);
    forall i, j | 0 <= i < j < |all| ensures all[i] != all[j] {
      if j < |f| {
        AscendingDistinct(f, i, j);
      } else if i >= |f| {
        AscendingDistinct(d, i - |f|, j - |f|);
      }
    }
  }

  lemma DistinctPermutes<A>(xs: seq<A>, ys: seq<A>)
    requires multiset(xs) == multiset(ys)
    requires forall i, j | 0 <= i < j < |xs| :: xs[i] != xs[j]
    ensures forall i, j | 0 <= i < j < |ys| :: ys[i] != ys[j]
  {
    OnceEach(xs);
    forall i, j | 0 <= i < j < |ys| ensures ys[i] != ys[j] {
      assert ys == ys[..i] + [ys[i]] + ys[i + 1..];
      assert ys[j] in ys[i + 1..];
      assert ys[i] in multiset(ys);
      assert ys[i] in xs;
    }
  }

  // ---- Following the entries visits every note once --------------------------------------------

  /** What the index holds: valid paths only. */
  predicate ValidKeys(m: NoteMap) {
    forall k <- m :: ValidPath(k)
  }

  /** A folder a request may name: the root, or a valid path. */
  predicate ValidFolder(folder: string) {
    folder == [] || ValidPath(folder)
  }

  lemma BeneathIsUnder(path: string, folder: string, name: string)
    requires ValidFolder(folder) && ValidPath(path) && Beneath(path, folder, name)
    ensures ValidName(name) && ValidPath(Child(folder, name)) && |Child(folder, name)| > |folder|
    ensures Segments(Child(folder, name)) < Segments(path)
  {
    var child := Child(folder, name);
    var rest := path[|child| + 1..];
    assert path == child + ['/'] + rest;
    SplitConcat(child, rest, '/');
    SplitNone(name, '/');
    if folder != [] {
      assert child == folder + ['/'] + name;
      SplitConcat(folder, name, '/');
    } else {
      assert child == name;
    }
    assert Segments(child)[|Segments(child)| - 1] == name;
    assert name in Segments(path);
  }

  ghost function Longest(keys: set<string>): (n: nat)
    ensures forall k <- keys :: |k| <= n
  {
    if keys == {} then 0
    else
      var k :| k in keys;
      var n := Longest(keys - {k});
      if |k| > n then |k| else n
  }

  /** A server's answers to listing requests, none for 404. */
  type Answers = string -> Option<seq<FolderEntry>>

  function Server(m: NoteMap): Answers {
    folder => Listing(m, folder)
  }

  /** The answers describe this store. */
  ghost predicate Faithful(m: NoteMap, answer: Answers) {
    forall folder | ValidFolder(folder) :: FaithfulAt(m, folder, answer(folder))
  }

  ghost predicate FaithfulAt(m: NoteMap, folder: string, entries: Option<seq<FolderEntry>>) {
    && (entries.None? ==> folder != [] && forall k <- m :: !Inside(k, folder))
    && (entries.Some? ==> Describes(m, folder, entries.value))
  }

  lemma ServerIsFaithful(m: NoteMap)
    ensures Faithful(m, Server(m))
  {
    forall folder | ValidFolder(folder) ensures FaithfulAt(m, folder, Server(m)(folder)) {
      ListingExact(m, folder);
    }
  }

  /** A listed subfolder is a valid folder, longer than its parent, and holds notes. */
  lemma Descends(m: NoteMap, folder: string, e: FolderEntry)
    requires ValidKeys(m) && ValidFolder(folder) && Gathers(m, folder, e)
    ensures ValidPath(Child(folder, e.name)) && '/' !in e.name
    ensures |folder| < |Child(folder, e.name)| <= Longest(m.Keys)
    ensures exists k <- m :: Inside(k, Child(folder, e.name))
  {
    var k :| k in m && Beneath(k, folder, e.name);
    BeneathIsUnder(k, folder, e.name);
    LastNotSlash(k);
    assert Inside(k, Child(folder, e.name));
  }

  lemma NotAFile(m: NoteMap, folder: string, entries: seq<FolderEntry>, e: FolderEntry)
    requires Describes(m, folder, entries) && e in entries && e.DirEntry?
    ensures Gathers(m, folder, e)
  {
  }

  lemma Answered(m: NoteMap, answer: Answers, folder: string, e: FolderEntry)
    requires ValidKeys(m) && ValidFolder(folder) && Faithful(m, answer) && answer(folder).Some?
    requires e in answer(folder).value && e.DirEntry?
    ensures Gathers(m, folder, e)
    ensures ValidPath(Child(folder, e.name)) && |folder| < |Child(folder, e.name)| <= Longest(m.Keys)
    ensures answer(Child(folder, e.name)).Some?
  {
    assert FaithfulAt(m, folder, answer(folder));
    NotAFile(m, folder, answer(folder).value, e);
    Descends(m, folder, e);
    assert FaithfulAt(m, Child(folder, e.name), answer(Child(folder, e.name)));
  }

  /** The notes a client reaches from a folder: each file entry, and for each
      directory entry whatever the answer for it leads to. */
  ghost function Visit(m: NoteMap, answer: Answers, folder: string): seq<string>
    requires ValidKeys(m) && ValidFolder(folder) && Faithful(m, answer) && answer(folder).Some?
    decreases Longest(m.Keys) - |folder|, 1, 0
  {
    VisitEntries(m, answer, folder, answer(folder).value)
  }

  ghost function VisitEntries(m: NoteMap, answer: Answers, folder: string, entries: seq<FolderEntry>): seq<string>
    requires ValidKeys(m) && ValidFolder(folder) && Faithful(m, answer) && answer(folder).Some?
    requires forall e <- entries :: e in answer(folder).value
    decreases Longest(m.Keys) - |folder|, 0, |entries|
  {
    if entries == [] then []
    else
      var e := entries[0];
      (if e.FileEntry? then [Child(folder, e.name)]
       else (Answered(m, answer, folder, e); Visit(m, answer, Child(folder, e.name))))
      + VisitEntries(m, answer, folder, entries[1..])
  }

  /** `path` is found through this entry of the folder. */
  predicate Through(e: FolderEntry, folder: string, path: string) {
    if e.FileEntry? then path == Child(folder, e.name) && e.name != [] && '/' !in e.name
    else Beneath(path, folder, e.name)
  }

  lemma ThroughFile(m: NoteMap, folder: string, entries: seq<FolderEntry>, e: FolderEntry)
    requires Describes(m, folder, entries) && e in entries && e.FileEntry?
    ensures Child(folder, e.name) in m && forall k :: Through(e, folder, k) <==> k == Child(folder, e.name)
  {
  }

  lemma ThroughDir(m: NoteMap, folder: string, e: FolderEntry, k: string)
    requires ValidKeys(m) && ValidFolder(folder) && Gathers(m, folder, e) && k in m
    ensures Through(e, folder, k) <==> Inside(k, Child(folder, e.name))
  {
    Descends(m, folder, e);
    LastNotSlash(k);
  }

  lemma ThroughIsInside(e: FolderEntry, folder: string, k: string)
    requires Through(e, folder, k)
    ensures Inside(k, folder)
  {
  }

  lemma SameName(m: NoteMap, folder: string, entries: seq<FolderEntry>, d: FolderEntry, e: FolderEntry)
    requires Describes(m, folder, entries) && d in entries && e in entries
    requires d.FileEntry? == e.FileEntry? && d.name == e.name
    ensures d == e
  {
  }

  /** No note is reached through two entries. */
  lemma ThroughOne(m: NoteMap, folder: string, entries: seq<FolderEntry>, d: FolderEntry, e: FolderEntry, path: string)
    requires Describes(m, folder, entries) && d in entries && e in entries
    requires Through(d, folder, path) && Through(e, folder, path)
    ensures d == e
  {
    if d.FileEntry? { DirectlyInside(path, folder, d.name); } else { DeeperInside(path, folder, d.name); }
    if e.FileEntry? { DirectlyInside(path, folder, e.name); } else { DeeperInside(path, folder, e.name); }
    SameName(m, folder, entries, d, e);
  }

  lemma {:induction false} LatestExists(m: NoteMap, folder: string, name: string, keys: set<string>)
    requires keys <= m.Keys && exists k <- keys :: Beneath(k, folder, name)
    ensures exists t :: LatestBeneath(m, folder, name, keys, t)
  {
    var k :| k in keys && Beneath(k, folder, name);
    var rest := keys - {k};
    assert keys == rest + {k};
    if exists j <- rest :: Beneath(j, folder, name) {
      LatestExists(m, folder, name, rest);
      var t :| LatestBeneath(m, folder, name, rest, t);
      assert LatestBeneath(m, folder, name, keys, if m[k].lastModified > t then m[k].lastModified else t);
    } else {
      assert LatestBeneath(m, folder, name, keys, m[k].lastModified);
    }
  }

  /** Every note in the folder is reached through some entry. */
  lemma ThroughSome(m: NoteMap, folder: string, entries: seq<FolderEntry>, path: string)
    requires Describes(m, folder, entries) && path in m && Inside(path, folder)
    ensures exists e <- entries :: Through(e, folder, path)
  {
    var rel := Relative(path, folder);
    if '/' in rel {
      var name := rel[..Find(rel, '/').value];
      DeeperInside(path, folder, name);
      LatestExists(m, folder, name, m.Keys);
      var t :| LatestBeneath(m, folder, name, m.Keys, t);
      assert Gathers(m, folder, DirEntry(name, t));
      assert Through(DirEntry(name, t), folder, path);
    } else {
      DirectlyInside(path, folder, rel);
      var e := FileEntry(rel, m[path].lastModified, m[path].size);
      assert StandsFor(e, folder, path, m[path]);
      assert Through(e, folder, path);
    }
  }

  ghost function ThroughAny(m: NoteMap, folder: string, entries: seq<FolderEntry>): set<string> {
    set k | k in m && exists e <- entries :: Through(e, folder, k)
  }

  ghost function AllInside(m: NoteMap, folder: string): set<string> {
    set k | k in m && Inside(k, folder)
  }

  lemma ThroughAnyIsAll(m: NoteMap, folder: string, entries: seq<FolderEntry>)
    requires Describes(m, folder, entries)
    ensures ThroughAny(m, folder, entries) == AllInside(m, folder)
  {
    forall k | k in m && Inside(k, folder) ensures k in ThroughAny(m, folder, entries) {
      ThroughSome(m, folder, entries, k);
    }
    forall k | k in ThroughAny(m, folder, entries) ensures Inside(k, folder) {
      var e :| e in entries && Through(e, folder, k);
      ThroughIsInside(e, folder, k);
    }
  }

  lemma ThroughAnySplits(m: NoteMap, folder: string, all: seq<FolderEntry>, entries: seq<FolderEntry>)
    requires Describes(m, folder, all) && entries != [] && forall e <- entries :: e in all
    requires forall i, j | 0 <= i < j < |entries| :: entries[i] != entries[j]
    ensures var here, there := ThroughAny(m, folder, [entries[0]]), ThroughAny(m, folder, entries[1..]);
            multiset(ThroughAny(m, folder, entries)) == multiset(here) + multiset(there)
  {
    var e, rest := entries[0], entries[1..];
    assert entries == [e] + rest;
    var here, there := ThroughAny(m, folder, [e]), ThroughAny(m, folder, rest);
    forall k | k in here && k in there ensures false {
      var d :| d in rest && Through(d, folder, k);
      ThroughOne(m, folder, all, d, e, k);
    }
    assert ThroughAny(m, folder, entries) == here + there;
    assert multiset(here + there) == multiset(here) + multiset(there);
  }

  /** Following every entry from a folder visits each note in it exactly once
      and nothing else. */
  lemma {:induction false} VisitsEachOnce(m: NoteMap, answer: Answers, folder: string)
    requires ValidKeys(m) && ValidFolder(folder) && Faithful(m, answer) && answer(folder).Some?
    ensures multiset(Visit(m, answer, folder)) == multiset(AllInside(m, folder))
    decreases Longest(m.Keys) - |folder|, 1, 0
  {
    assert FaithfulAt(m, folder, answer(folder));
    VisitsEntriesOnce(m, answer, folder, answer(folder).value);
    ThroughAnyIsAll(m, folder, answer(folder).value);
  }

  lemma {:induction false} VisitsEntriesOnce(m: NoteMap, answer: Answers, folder: string, entries: seq<FolderEntry>)
    requires ValidKeys(m) && ValidFolder(folder) && Faithful(m, answer) && answer(folder).Some?
    requires forall e <- entries :: e in answer(folder).value
    requires forall i, j | 0 <= i < j < |entries| :: entries[i] != entries[j]
    ensures multiset(VisitEntries(m, answer, folder, entries)) == multiset(ThroughAny(m, folder, entries))
    decreases Longest(m.Keys) - |folder|, 0, |entries|
  {
    if entries != [] {
      assert FaithfulAt(m, folder, answer(folder));
      VisitsEntriesOnce(m, answer, folder, entries[1..]);
      ThroughAnySplits(m, folder, answer(folder).value, entries);
      if entries[0].FileEntry? {
        FileReached(m, folder, answer(folder).value, entries[0]);
      } else {
        Answered(m, answer, folder, entries[0]);
        VisitsEachOnce(m, answer, Child(folder, entries[0].name));
        DirReached(m, folder, entries[0]);
      }
    }
  }

  lemma FileReached(m: NoteMap, folder: string, entries: seq<FolderEntry>, e: FolderEntry)
    requires Describes(m, folder, entries) && e in entries && e.FileEntry?
    ensures ThroughAny(m, folder, [e]) == {Child(folder, e.name)}
  {
    ThroughFile(m, folder, entries, e);
    forall k | k in m ensures k in ThroughAny(m, folder, [e]) <==> k == Child(folder, e.name) {
      assert Through(e, folder, k) <==> k == Child(folder, e.name);
    }
  }

  lemma DirReached(m: NoteMap, folder: string, e: FolderEntry)
    requires ValidKeys(m) && ValidFolder(folder) && Gathers(m, folder, e)
    ensures ThroughAny(m, folder, [e]) == AllInside(m, Child(folder, e.name))
  {
    forall k | k in m ensures Through(e, folder, k) <==> Inside(k, Child(folder, e.name)) {
      ThroughDir(m, folder, e, k);
    }
  }

  lemma RootVisited(m: NoteMap, answer: Answers)
    requires ValidKeys(m) && Faithful(m, answer)
    ensures answer([]).Some? && multiset(Visit(m, answer, [])) == multiset(m.Keys)
  {
    assert FaithfulAt(m, [], answer([]));
    VisitsEachOnce(m, answer, []);
    forall k | k in m ensures Inside(k, []) { LastNotSlash(k); }
    assert AllInside(m, []) == m.Keys;
  }

  /** From the root a client reaches each stored note exactly once. */
  lemma RootVisitsTheStore(m: NoteMap)
    requires ValidKeys(m)
    ensures Faithful(m, Server(m)) && Server(m)([]).Some?
    ensures multiset(Visit(m, Server(m), [])) == multiset(m.Keys)
  {
    ServerIsFaithful(m);
    RootVisited(m, Server(m));
  }

  // ---- Listings and queries agree ------------------------------------------------------------------

  function FolderQuery(folder: string, recursive: bool): ParsedQuery {
    NEW.(pathPrefix := Some(folder), recursive := recursive)
  }

  lemma FolderResults(env: Env, m: NoteMap, folder: string, recursive: bool, path: string)
    ensures path in Matching(env, FolderQuery(folder, recursive), m)
       <==> path in m && PathMatches(path, folder, recursive)
  {
    MatchingExact(env, FolderQuery(folder, recursive), m);
  }

  lemma DirectMatches(path: string, folder: string)
    requires ValidPath(path)
    ensures PathMatches(path, folder, false) && path != folder
       <==> Inside(path, folder) && '/' !in Relative(path, folder)
    ensures PathMatches(path, folder, true) && path != folder <==> Inside(path, folder)
  {
    LastNotSlash(path);
  }

  /** The file entries of a folder are the results of the non-recursive query
      for it, a note named like the folder itself apart. */
  lemma FilesAreQueryResults(env: Env, m: NoteMap, folder: string, entries: seq<FolderEntry>, path: string)
    requires ValidKeys(m) && Describes(m, folder, entries)
    ensures path in Matching(env, FolderQuery(folder, false), m) && path != folder
       <==> path in m && exists e <- entries :: StandsFor(e, folder, path, m[path])
  {
    FolderResults(env, m, folder, false, path);
    if path in m {
      DirectMatches(path, folder);
      DirectEntry(m, folder, entries, path);
    }
  }

  lemma DirectEntry(m: NoteMap, folder: string, entries: seq<FolderEntry>, path: string)
    requires Describes(m, folder, entries) && path in m
    ensures Inside(path, folder) && '/' !in Relative(path, folder)
       <==> exists e <- entries :: StandsFor(e, folder, path, m[path])
  {
    if Inside(path, folder) && '/' !in Relative(path, folder) {
      var name := Relative(path, folder);
      DirectlyInside(path, folder, name);
      assert StandsFor(FileEntry(name, m[path].lastModified, m[path].size), folder, path, m[path]);
    }
    if e :| e in entries && StandsFor(e, folder, path, m[path]) {
      DirectlyInside(path, folder, e.name);
    }
  }

  /** A folder is unknown exactly when the recursive query for it finds at
      most a note of that very name. */
  lemma UnknownFolder(env: Env, m: NoteMap, folder: string)
    requires ValidKeys(m) && folder != []
    ensures Listing(m, folder).None? <==> forall k <- Matching(env, FolderQuery(folder, true), m) :: k == folder
  {
    ListingExact(m, folder);
    forall k ensures k in Matching(env, FolderQuery(folder, true), m) && k != folder <==> k in m && Inside(k, folder) {
      FolderResults(env, m, folder, true, k);
      if k in m { DirectMatches(k, folder); }
    }
  }

  ghost predicate LatestOf(times: set<int>, t: int) {
    t in times && forall u <- times :: u <= t
  }

  /** The times of the recursive query results for a folder. */
  ghost function ResultTimes(env: Env, m: NoteMap, folder: string): set<int> {
    set k | k in m && k in Matching(env, FolderQuery(folder, true), m) && k != folder :: m[k].lastModified
  }

  ghost function EntryTimes(entries: seq<FolderEntry>): set<int> {
    set e | e in entries :: e.lastModified
  }

  lemma BeneathIsInside(path: string, folder: string, name: string)
    requires ValidPath(path) && ValidName(name)
    ensures Beneath(path, folder, name) <==> Inside(path, Child(folder, name))
  {
    LastNotSlash(path);
  }

  lemma ResultTimesAre(env: Env, m: NoteMap, folder: string)
    requires ValidKeys(m)
    ensures ResultTimes(env, m, folder) == set k | k in m && Inside(k, folder) :: m[k].lastModified
  {
    forall k | k in m
      ensures k in Matching(env, FolderQuery(folder, true), m) && k != folder <==> Inside(k, folder)
    {
      FolderResults(env, m, folder, true, k);
      DirectMatches(k, folder);
    }
  }

  lemma GathersInside(m: NoteMap, folder: string, name: string, t: int)
    requires ValidKeys(m) && ValidName(name)
    ensures Gathers(m, folder, DirEntry(name, t))
       <==> LatestOf(set k | k in m && Inside(k, Child(folder, name)) :: m[k].lastModified, t)
  {
    var times := set k | k in m && Inside(k, Child(folder, name)) :: m[k].lastModified;
    forall k | k in m ensures Beneath(k, folder, name) <==> Inside(k, Child(folder, name)) {
      BeneathIsInside(k, folder, name);
    }
    assert forall k | k in m && Beneath(k, folder, name) :: m[k].lastModified in times;
  }

  /** A directory entry carries the latest time of the recursive results. */
  lemma DirTimeIsLatestResult(env: Env, m: NoteMap, folder: string, entries: seq<FolderEntry>, name: string, t: int)
    requires ValidKeys(m) && ValidName(name) && Describes(m, folder, entries)
    ensures DirEntry(name, t) in entries <==> LatestOf(ResultTimes(env, m, Child(folder, name)), t)
  {
    ResultTimesAre(env, m, Child(folder, name));
    GathersInside(m, folder, name, t);
    ListedIsGathered(m, folder, entries, name, t);
  }

  lemma ListedIsGathered(m: NoteMap, folder: string, entries: seq<FolderEntry>, name: string, t: int)
    requires Describes(m, folder, entries)
    ensures DirEntry(name, t) in entries <==> Gathers(m, folder, DirEntry(name, t))
  {
  }

  lemma EntryTimeWithin(m: NoteMap, folder: string, entries: seq<FolderEntry>, e: FolderEntry) returns (k: string)
    requires Describes(m, folder, entries) && e in entries
    ensures k in m && Through(e, folder, k) && m[k].lastModified == e.lastModified
  {
    if e.FileEntry? {
      k :| k in m && StandsFor(e, folder, k, m[k]);
    } else {
      k :| k in m && Beneath(k, folder, e.name) && m[k].lastModified == e.lastModified;
    }
  }

  lemma ThroughNotLater(m: NoteMap, folder: string, entries: seq<FolderEntry>, e: FolderEntry, k: string)
    requires Describes(m, folder, entries) && e in entries && k in m && Through(e, folder, k)
    ensures m[k].lastModified <= e.lastModified
  {
  }

  /** That is also the latest time in the subfolder's own listing. */
  lemma DirTimeIsLatestEntry(m: NoteMap, folder: string, name: string, t: int, below: seq<FolderEntry>)
    requires ValidKeys(m) && ValidFolder(folder)
    requires Gathers(m, folder, DirEntry(name, t)) && Describes(m, Child(folder, name), below)
    ensures LatestOf(EntryTimes(below), t)
  {
    var child := Child(folder, name);
    Descends(m, folder, DirEntry(name, t));
    forall e | e in below ensures e.lastModified <= t {
      var k := EntryTimeWithin(m, child, below, e);
      ThroughIsInside(e, child, k);
      ThroughDir(m, folder, DirEntry(name, t), k);
    }
    var k :| k in m && Beneath(k, folder, name) && m[k].lastModified == t;
    ThroughDir(m, folder, DirEntry(name, t), k);
    ThroughSome(m, child, below, k);
    var e :| e in below && Through(e, child, k);
    ThroughNotLater(m, child, below, e, k);
    assert e.lastModified == t && t in EntryTimes(below);
  }

  // ---- Request paths -------------------------------------------------------------------------------

  datatype PathError = BadEncoding | EmptyPath | ForbiddenSegment

  predicate Forbidden(seg: string) {
    seg == "" || seg == "." || seg == ".."
  }

  function ResolvePath(raw: string): Result<string, PathError> {
    match Decode(raw, false)
    case None => Err(BadEncoding)
    case Some(decoded) =>
      var stripped := TrimStart(decoded);
      if stripped == [] then Err(EmptyPath)
      else if exists seg <- Segments(stripped) :: Forbidden(seg) then Err(ForbiddenSegment)
      else Ok(stripped)
  }

  function ResolveFolder(raw: string): Result<string, PathError> {
    match Decode(raw, false)
    case None => Err(BadEncoding)
    case Some(decoded) =>
      var stripped := TrimStart(decoded);
      if stripped == [] then Ok([])
      else if exists seg <- Segments(stripped) :: Forbidden(seg) then Err(ForbiddenSegment)
      else Ok(stripped)
  }

  /** A path a request can name. */
  predicate Nameable(path: string) {
    ValidUtf8(path) && forall seg <- Segments(path) :: !Forbidden(seg)
  }

  /** A request is refused for broken encoding, for naming nothing, and for an
      empty component or one or two dots as a component; the root has a
      listing but is no path. */
  lemma RefusedExactly(raw: string)
    ensures ResolvePath(raw) == Err(BadEncoding) <==> Decode(raw, false).None?
    ensures ResolveFolder(raw) == Err(BadEncoding) <==> Decode(raw, false).None?
    ensures ResolvePath(raw) == Err(EmptyPath)
       <==> Decode(raw, false).Some? && TrimStart(Decode(raw, false).value) == ""
    ensures ResolveFolder(raw) == Ok("")
       <==> Decode(raw, false).Some? && TrimStart(Decode(raw, false).value) == ""
    ensures ResolvePath(raw) == Err(ForbiddenSegment) <==> ResolveFolder(raw) == Err(ForbiddenSegment)
    ensures ResolvePath(raw) == Err(ForbiddenSegment)
       <==> && Decode(raw, false).Some? && TrimStart(Decode(raw, false).value) != ""
            && exists seg <- Segments(TrimStart(Decode(raw, false).value)) ::
                 |seg| <= 2 && forall c <- seg :: c == '.'
  {
    forall seg: string ensures Forbidden(seg) <==> |seg| <= 2 && forall c <- seg :: c == '.' {
      AllDots(seg);
    }
  }

  lemma AllDots(seg: string)
    ensures Forbidden(seg) <==> |seg| <= 2 && forall c <- seg :: c == '.'
  {
    if |seg| <= 2 && forall c <- seg :: c == '.' {
      assert |seg| > 0 ==> seg[0] in seg;
      assert |seg| > 1 ==> seg[1] in seg;
      assert seg == "" || seg == ['.'] || seg == ['.', '.'];
    }
  }

  lemma NameableIsTrimmed(path: string)
    requires Nameable(path)
    ensures path != [] && TrimStart(path) == path && ValidPath(path)
  {
    SplitFree(path, '/');
    var first := Segments(path)[0];
    assert !Forbidden(first) && first != [];
  }

  lemma EncodedResolves(path: string)
    requires Nameable(path)
    ensures ByteText(path)
    ensures ResolvePath(Encode(path, true)) == Ok(path) && ResolveFolder(Encode(path, true)) == Ok(path)
  {
    NameableIsTrimmed(path);
    DecodeUndoesEncode(path, true, false);
  }

  /** Requests resolve to exactly the nameable paths, and each of those is
      reached by its own encoding. */
  lemma ResolvesExactly(path: string)
    ensures (exists raw :: ResolvePath(raw) == Ok(path)) <==> Nameable(path)
    ensures (exists raw :: ResolveFolder(raw) == Ok(path)) <==> path == [] || Nameable(path)
    ensures Nameable(path) ==> ByteText(path) && ResolvePath(Encode(path, true)) == Ok(path)
  {
    forall raw | ResolvePath(raw) == Ok(path) || (ResolveFolder(raw) == Ok(path) && path != []) ensures Nameable(path) {
      TrimStartIsUtf8(Decode(raw, false).value);
    }
    if Nameable(path) { EncodedResolves(path); }
    assert DecodeBytes([], false) == Some([]);
    assert ResolveFolder([]) == Ok([]);
  }

  // ---- Following entries by request -------------------------------------------------------------------

  /** What the scanner puts into the index. */
  predicate Scannable(m: NoteMap) {
    forall k <- m :: ValidPath(k) && Visible(k) && ValidUtf8(k)
  }

  lemma VisibleIsNameable(path: string)
    requires ValidPath(path) && Visible(path) && ValidUtf8(path)
    ensures Nameable(path)
  {
    forall seg | seg in Segments(path) ensures !Forbidden(seg) {
      assert ValidName(seg) && !DotPrefixed(seg);
    }
  }

  /** Requesting the encoded path of a stored note or of a listed subfolder
      resolves back to it. */
  lemma ListedFoldersResolve(m: NoteMap, folder: string, entries: seq<FolderEntry>, e: FolderEntry)
    requires Scannable(m) && ValidFolder(folder) && Describes(m, folder, entries) && e in entries
    ensures var path := Child(folder, e.name);
            && ByteText(path)
            && (if e.FileEntry? then ResolvePath(Encode(path, true)) == Ok(path)
                else ResolveFolder(Encode(path, true)) == Ok(path))
  {
    var path := Child(folder, e.name);
    if e.FileEntry? {
      ThroughFile(m, folder, entries, e);
      VisibleIsNameable(path);
    } else {
      var k :| k in m && Beneath(k, folder, e.name);
      BeneathIsUnder(k, folder, e.name);
      assert k == path + ['/'] + k[|path| + 1..];
      Utf8Head(path, '/', k[|path| + 1..]);
      VisibleIsNameable(path);
    }
    EncodedResolves(path);
  }
}
