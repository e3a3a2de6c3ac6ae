/** The in-memory note store: a sorted map from path to note. */
module Store {
  import opened Text
  import opened Ordered
  import opened Paths
  import opened Notes

  type NoteMap = map<string, Note>

  // ---- What the operations compute --------------------------------------------

  function WithoutPaths(m: NoteMap, paths: seq<string>): NoteMap {
    map k | k in m && k !in paths :: m[k]
  }

  function WithoutDirs(m: NoteMap, dirs: seq<string>): NoteMap {
    map k | k in m && !UnderAny(k, dirs) :: m[k]
  }

  /** Insert the notes one after the other, each under its own path. */
  function PutAll(m: NoteMap, notes: seq<Note>): NoteMap
    decreases |notes|
  {
    if notes == [] then m else PutAll(m[notes[0].path := notes[0]], notes[1..])
  }

  function Batched(m: NoteMap, upserts: seq<Note>, deletes: seq<string>, prefixes: seq<string>): NoteMap {
    PutAll(WithoutDirs(WithoutPaths(m, deletes), prefixes), upserts)
  }

  /** The last note with this path in the list. */
  function LastNamed(notes: seq<Note>, path: string): (r: Option<Note>)
    ensures r.Some? ==> r.value in notes && r.value.path == path
    ensures r.None? <==> forall n <- notes :: n.path != path
  {
    if notes == [] then None
    else if notes[|notes| - 1].path == path then Some(notes[|notes| - 1])
    else LastNamed(notes[..|notes| - 1], path)
  }

  lemma {:induction false} PutAllConcat(m: NoteMap, a: seq<Note>, b: seq<Note>)
    ensures PutAll(m, a + b) == PutAll(PutAll(m, a), b)
    decreases |a|
  {
    if a == [] {
      assert a + b == b;
    } else {
      assert (a + b)[1..] == a[1..] + b;
      PutAllConcat(m[a[0].path := a[0]], a[1..], b);
    }
  }

  /** A later note with the same path wins; other paths are untouched. */
  lemma {:induction false} PutAllAt(m: NoteMap, notes: seq<Note>, path: string)
    ensures var r := PutAll(m, notes); match LastNamed(notes, path)
            case Some(n) => path in r && r[path] == n
            case None => (path in r <==> path in m) && (path in m ==> r[path] == m[path])
    decreases |notes|
  {
    if notes != [] {
      var init, last := notes[..|notes| - 1], notes[|notes| - 1];
      assert notes == init + [last];
      PutAllConcat(m, init, [last]);
      assert [last][1..] == [];
      assert PutAll(PutAll(m, init), [last]) == PutAll(m, init)[last.path := last];
      PutAllAt(m, init, path);
    }
  }

  /** The whole effect of one batch on one path: an upsert wins over
      everything, otherwise a path delete or any directory above removes it. */
  lemma BatchedAt(m: NoteMap, upserts: seq<Note>, deletes: seq<string>, prefixes: seq<string>, path: string)
    ensures var r := Batched(m, upserts, deletes, prefixes);
            match LastNamed(upserts, path)
            case Some(n) => path in r && r[path] == n
            case None =>
              if path in deletes || UnderAny(path, prefixes) then path !in r
              else (path in r <==> path in m) && (path in m ==> r[path] == m[path])
  {
    PutAllAt(WithoutDirs(WithoutPaths(m, deletes), prefixes), upserts, path);
  }

  predicate Keyed(m: NoteMap) {
    forall k <- m :: m[k].path == k
  }

  lemma {:induction false} PutAllKeyed(m: NoteMap, notes: seq<Note>)
    requires Keyed(m)
    ensures Keyed(PutAll(m, notes))
    decreases |notes|
  {
    if notes != [] {
      PutAllKeyed(m[notes[0].path := notes[0]], notes[1..]);
    }
  }

  // ---- The store ---------------------------------------------------------------

  class NoteStore {
    var inner: NoteMap

    constructor ()
      ensures inner == map[] && Keyed(inner)
    {
      inner := map[];
    }

    /** `guard.insert(note.path.clone(), note)` for each note in turn. */
    method InsertAll(notes: seq<Note>)
      modifies this
      ensures inner == PutAll(old(inner), notes)
      ensures old(Keyed(inner)) ==> Keyed(inner)
    {
      for i := 0 to |notes|
        invariant PutAll(inner, notes[i..]) == PutAll(old(inner), notes)
      {
        assert notes[i..][1..] == notes[i + 1..];
        inner := inner[notes[i].path := notes[i]];
      }
      if old(Keyed(inner)) {
        PutAllKeyed(old(inner), notes);
      }
    }

    method Replace(notes: seq<Note>)
      modifies this
      ensures inner == PutAll(map[], notes)
      ensures Keyed(inner)
    {
      inner := map[];
      InsertAll(notes);
    }

    method RemovePaths(paths: seq<string>)
      modifies this
      ensures inner == WithoutPaths(old(inner), paths)
    {
      for i := 0 to |paths|
        invariant inner == WithoutPaths(old(inner), paths[..i])
      {
        assert paths[..i + 1] == paths[..i] + [paths[i]];
        inner := inner - {paths[i]};
      }
      assert paths[..|paths|] == paths;
    }

    /** Remove one directory by scanning the sorted keys from `dir/` on. */
    method RemoveDir(dir: string) returns (dropped: nat)
      modifies this
      ensures inner == map k | k in old(inner) && !Under(k, dir) :: old(inner)[k]
      ensures dropped == |old(inner)| - |inner|
    {
      var prefix := TrimEnd(dir) + "/";
      var doomed := Doomed(inner, prefix);
      RangeScanRemoves(inner, prefix);
      dropped := |doomed|;
      RemovePaths(doomed);
    }

    method RemoveDirs(dirs: seq<string>) returns (dropped: nat)
      modifies this
      ensures inner == WithoutDirs(old(inner), dirs)
      ensures dropped == |set k | k in old(inner) && UnderAny(k, dirs)|
    {
      dropped := 0;
      for i := 0 to |dirs|
        invariant inner == WithoutDirs(old(inner), dirs[..i])
        invariant dropped == |old(inner)| - |inner|
      {
        var d := RemoveDir(dirs[i]);
        dropped := dropped + d;
        UnderAnyExtend(dirs, i);
      }
      assert dirs[..|dirs|] == dirs;
      WithoutDirsSize(old(inner), dirs);
    }

    /** Deletes first, then whole directories, then upserts.  `dropped` counts
        each note lost to a directory once, however the directories overlap. */
    method ApplyBatch(upserts: seq<Note>, deletes: seq<string>, deletePrefixes: seq<string>)
      returns (dropped: nat)
      modifies this
      ensures inner == Batched(old(inner), upserts, deletes, deletePrefixes)
      ensures dropped == |set k | k in old(inner) && k !in deletes && UnderAny(k, deletePrefixes)|
      ensures old(Keyed(inner)) ==> Keyed(inner)
    {
      RemovePaths(deletes);
      ghost var kept := inner;
      dropped := RemoveDirs(deletePrefixes);
      assert (set k | k in kept && UnderAny(k, deletePrefixes))
          == set k | k in old(inner) && k !in deletes && UnderAny(k, deletePrefixes);
      InsertAll(upserts);
    }

    method Upsert(note: Note)
      modifies this
      ensures inner == old(inner)[note.path := note]
      ensures old(Keyed(inner)) ==> Keyed(inner)
    {
      inner := inner[note.path := note];
    }

    method Delete(path: string)
      modifies this
      ensures inner == old(inner) - {path}
      ensures old(Keyed(inner)) ==> Keyed(inner)
    {
      inner := inner - {path};
    }

    method Get(path: string) returns (r: Option<Note>)
      ensures r == if path in inner then Some(inner[path]) else None
      ensures Keyed(inner) && r.Some? ==> r.value.path == path
    {
      r := if path in inner then Some(inner[path]) else None;
    }
  }

  lemma {:induction false} WithoutPathsSize(m: NoteMap, keys: seq<string>)
    requires StrictlyAscending(keys) && forall k <- keys :: k in m
    ensures |WithoutPaths(m, keys)| == |m| - |keys|
    decreases |keys|
  {
    if keys == [] {
      assert WithoutPaths(m, keys) == m;
    } else {
      var init, last := keys[..|keys| - 1], keys[|keys| - 1];
      WithoutPathsSize(m, init);
      DistinctHead(keys, |keys| - 1);
      assert keys == init + [last];
      assert WithoutPaths(m, init).Keys == WithoutPaths(m, keys).Keys + {last};
    }
  }

  function Doomed(m: NoteMap, prefix: string): (doomed: seq<string>) {
    TakeWhileStartsWith(RangeFrom(Ascending(m.Keys), prefix), prefix)
  }

  lemma DoomedExact(m: NoteMap, prefix: string)
    ensures forall k :: k in Doomed(m, prefix) <==> k in m && prefix <= k
    ensures StrictlyAscending(Doomed(m, prefix))
  {
    AscendingSorted(m.Keys);
    RangeScanExact(Ascending(m.Keys), prefix);
  }

  lemma RangeScanRemoves(m: NoteMap, prefix: string)
    ensures WithoutPaths(m, Doomed(m, prefix)) == (map k | k in m && !(prefix <= k) :: m[k])
    ensures |WithoutPaths(m, Doomed(m, prefix))| == |m| - |Doomed(m, prefix)|
  {
    DoomedExact(m, prefix);
    WithoutPathsSize(m, Doomed(m, prefix));
  }

  lemma UnderAnyExtend(dirs: seq<string>, i: nat)
    requires i < |dirs|
    ensures forall k :: UnderAny(k, dirs[..i + 1]) <==> UnderAny(k, dirs[..i]) || Under(k, dirs[i])
  {
    assert dirs[..i + 1] == dirs[..i] + [dirs[i]];
  }

  lemma WithoutDirsSize(m: NoteMap, dirs: seq<string>)
    ensures |m| == |WithoutDirs(m, dirs)| + |set k | k in m && UnderAny(k, dirs)|
  {
    assert m.Keys == WithoutDirs(m, dirs).Keys + set k | k in m && UnderAny(k, dirs);
  }

  lemma DistinctHead(keys: seq<string>, j: nat)
    requires StrictlyAscending(keys) && j < |keys|
    ensures keys[j] !in keys[..j]
  {
    CompareEqual(keys[j], keys[j]);
  }
}
