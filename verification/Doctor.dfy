/** The doctor's reports: type drift and path collisions. */
module Doctor {
  import opened Ordered
  import opened Notes
  import opened Store

  function ShapeOf(v: Value): string {
    match v
    case Null => "null"
    case Bool(_) => "bool"
    case Int(_) => "number"
    case Float(_, _) => "number"
    case Str(_) => "string"
    case DateOnly(_) => "date"
    case DateTime(_) => "date"
    case Sequence(_) => "list"
    case Mapping(_) => "mapping"
  }

  /** The names of the shapes: integers and floats share one, and so do dates
      and datetimes; no others do. */
  lemma ShapesMean(v: Value)
    ensures ShapeOf(v) in {"null", "bool", "number", "string", "date", "list", "mapping"}
    ensures ShapeOf(v) == "number" <==> v.Int? || v.Float?
    ensures ShapeOf(v) == "date" <==> v.DateOnly? || v.DateTime?
    ensures (ShapeOf(v) == "null" <==> v.Null?) && (ShapeOf(v) == "bool" <==> v.Bool?)
    ensures (ShapeOf(v) == "string" <==> v.Str?) && (ShapeOf(v) == "list" <==> v.Sequence?)
    ensures ShapeOf(v) == "mapping" <==> v.Mapping?
  {
  }

  const SAMPLES: nat := 3

  function FirstSamples(paths: seq<string>): seq<string> {
    if |paths| <= SAMPLES then paths else paths[..SAMPLES]
  }

  datatype DriftShape = DriftShape(shape: string, count: nat, samples: seq<string>)

  datatype TypeDrift = TypeDrift(key: string, shapes: seq<DriftShape>)

  // ---- What the drift report must say -----------------------------------------------------

  predicate Carries(n: Note, key: string, shape: string) {
    key in n.frontmatter && ShapeOf(n.frontmatter[key]) == shape
  }

  /** The paths of the notes that carry the key in this shape, in scan order. */
  function Carriers(notes: seq<Note>, key: string, shape: string): seq<string> {
    if notes == [] then []
    else
      var last := notes[|notes| - 1];
      Carriers(notes[..|notes| - 1], key, shape) + if Carries(last, key, shape) then [last.path] else []
  }

  ghost function KeysOf(notes: seq<Note>): set<string> {
    set n, k | n in notes && k in n.frontmatter :: k
  }

  ghost function ShapesOf(notes: seq<Note>, key: string): set<string> {
    set n | n in notes && key in n.frontmatter :: ShapeOf(n.frontmatter[key])
  }

  /** Two notes give the key different shapes. */
  ghost predicate Drifts(notes: seq<Note>, key: string) {
    exists a, b | a in notes && b in notes :: key in a.frontmatter && key in b.frontmatter
      && ShapeOf(a.frontmatter[key]) != ShapeOf(b.frontmatter[key])
  }

  ghost function DriftingKeys(notes: seq<Note>): set<string> {
    set k | k in KeysOf(notes) && Drifts(notes, k)
  }

  function ShapeReport(notes: seq<Note>, key: string, shape: string): DriftShape {
    DriftShape(shape, |Carriers(notes, key, shape)|, FirstSamples(Carriers(notes, key, shape)))
  }

  function ShapeReports(notes: seq<Note>, key: string, shapes: seq<string>): seq<DriftShape> {
    seq(|shapes|, i requires 0 <= i < |shapes| => ShapeReport(notes, key, shapes[i]))
  }

  ghost function KeyReport(notes: seq<Note>, key: string): TypeDrift {
    TypeDrift(key, ShapeReports(notes, key, Ascending(ShapesOf(notes, key))))
  }

  ghost function KeyReports(notes: seq<Note>, keys: seq<string>): seq<TypeDrift> {
    seq(|keys|, i requires 0 <= i < |keys| => KeyReport(notes, keys[i]))
  }

  /** One entry for each drifting key, in the order of the keys. */
  ghost function DriftReport(notes: seq<Note>): seq<TypeDrift> {
    KeyReports(notes, Ascending(DriftingKeys(notes)))
  }

  // ---- Tallying -------------------------------------------------------------------------------

  datatype Tally = Tally(count: nat, samples: seq<string>)

  type ShapeTallies = map<string, Tally>

  datatype Observation = Observation(key: string, shape: string, path: string)

  /** The paths seen with this key and shape. */
  function Seen(obs: seq<Observation>, key: string, shape: string): seq<string> {
    if obs == [] then []
    else
      var last := obs[|obs| - 1];
      Seen(obs[..|obs| - 1], key, shape) + if last.key == key && last.shape == shape then [last.path] else []
  }

  function TallyOf(paths: seq<string>): Tally {
    Tally(|paths|, FirstSamples(paths))
  }

  /** The nested maps hold exactly what was observed. */
  ghost predicate Tallied(byKey: map<string, ShapeTallies>, obs: seq<Observation>) {
    && (forall k <- byKey :: byKey[k] != map[])
    && forall k, s :: TalliedAt(byKey, k, s, Seen(obs, k, s))
  }

  predicate TalliedAt(byKey: map<string, ShapeTallies>, key: string, shape: string, paths: seq<string>) {
    && (paths != [] <==> key in byKey && shape in byKey[key])
    && (key in byKey && shape in byKey[key] ==> byKey[key][shape] == TallyOf(paths))
  }

  lemma SeenAppend(obs: seq<Observation>, o: Observation, key: string, shape: string)
    ensures Seen(obs + [o], key, shape)
         == Seen(obs, key, shape) + if o.key == key && o.shape == shape then [o.path] else []
  {
    assert (obs + [o])[..|obs|] == obs;
  }

  lemma {:induction false} SeenConcat(a: seq<Observation>, b: seq<Observation>, key: string, shape: string)
    ensures Seen(a + b, key, shape) == Seen(a, key, shape) + Seen(b, key, shape)
    decreases |b|
  {
    if b == [] {
      assert a + b == a;
    } else {
      var init, last := b[..|b| - 1], b[|b| - 1];
      assert a + b == (a + init) + [last] && b == init + [last];
      SeenAppend(a + init, last, key, shape);
      SeenAppend(init, last, key, shape);
      SeenConcat(a, init, key, shape);
    }
  }

  function ShapesIn(byKey: map<string, ShapeTallies>, key: string): ShapeTallies {
    if key in byKey then byKey[key] else map[]
  }

  function Bumped(t: Tally, path: string): Tally {
    Tally(t.count + 1, if |t.samples| < SAMPLES then t.samples + [path] else t.samples)
  }

  function Counted(byKey: map<string, ShapeTallies>, o: Observation): map<string, ShapeTallies> {
    var shapes := ShapesIn(byKey, o.key);
    byKey[o.key := shapes[o.shape := Bumped(if o.shape in shapes then shapes[o.shape] else Tally(0, []), o.path)]]
  }

  lemma BumpedTally(paths: seq<string>, path: string)
    ensures Bumped(TallyOf(paths), path) == TallyOf(paths + [path])
  {
  }

  lemma CountedAt(byKey: map<string, ShapeTallies>, o: Observation, k: string, s: string, paths: seq<string>)
    requires TalliedAt(byKey, k, s, paths)
    ensures TalliedAt(Counted(byKey, o), k, s, paths + if k == o.key && s == o.shape then [o.path] else [])
  {
    BumpedTally(paths, o.path);
    assert paths + [] == paths;
  }

  lemma CountedTallies(byKey: map<string, ShapeTallies>, obs: seq<Observation>, o: Observation)
    requires Tallied(byKey, obs)
    ensures Tallied(Counted(byKey, o), obs + [o])
  {
    forall k, s ensures TalliedAt(Counted(byKey, o), k, s, Seen(obs + [o], k, s)) {
      SeenAppend(obs, o, k, s);
      CountedAt(byKey, o, k, s, Seen(obs, k, s));
    }
  }

  method Count(byKey: map<string, ShapeTallies>, key: string, shape: string, path: string)
    returns (r: map<string, ShapeTallies>)
    ensures r == Counted(byKey, Observation(key, shape, path))
  {
    var shapes: ShapeTallies := if key in byKey then byKey[key] else map[];
    var entry := if shape in shapes then shapes[shape] else Tally(0, []);
    entry := entry.(count := entry.count + 1);
    if |entry.samples| < SAMPLES {
      entry := entry.(samples := entry.samples + [path]);
    }
    r := byKey[key := shapes[shape := entry]];
  }

  /** What one note shows, key by key. */
  function Shown(n: Note, keys: seq<string>): seq<Observation>
    requires forall k <- keys :: k in n.frontmatter
  {
    seq(|keys|, i requires 0 <= i < |keys| =>
      assert keys[i] in keys; Observation(keys[i], ShapeOf(n.frontmatter[keys[i]]), n.path))
  }

  function Observations(notes: seq<Note>): seq<Observation> {
    if notes == [] then []
    else
      var last := notes[|notes| - 1];
      Observations(notes[..|notes| - 1]) + Shown(last, Ascending(last.frontmatter.Keys))
  }

  lemma {:induction false} ShownOnce(n: Note, keys: seq<string>, key: string, shape: string)
    requires StrictlyAscending(keys) && forall k <- keys :: k in n.frontmatter
    ensures Seen(Shown(n, keys), key, shape) == if key in keys && Carries(n, key, shape) then [n.path] else []
    decreases |keys|
  {
    if keys != [] {
      var init, last := keys[..|keys| - 1], keys[|keys| - 1];
      ShownOnce(n, init, key, shape);
      assert keys == init + [last];
      assert Shown(n, keys) == Shown(n, init) + [Observation(last, ShapeOf(n.frontmatter[last]), n.path)];
      SeenAppend(Shown(n, init), Observation(last, ShapeOf(n.frontmatter[last]), n.path), key, shape);
      DistinctHead(keys, |keys| - 1);
    }
  }

  lemma SeenInNote(n: Note, key: string, shape: string)
    ensures Seen(Shown(n, Ascending(n.frontmatter.Keys)), key, shape) == if Carries(n, key, shape) then [n.path] else []
  {
    AscendingSorted(n.frontmatter.Keys);
    ShownOnce(n, Ascending(n.frontmatter.Keys), key, shape);
  }

  /** Observed with a key and shape are exactly the notes that carry them. */
  lemma {:induction false} SeenAreCarriers(notes: seq<Note>, key: string, shape: string)
    ensures Seen(Observations(notes), key, shape) == Carriers(notes, key, shape)
    decreases |notes|
  {
    if notes != [] {
      var init, last := notes[..|notes| - 1], notes[|notes| - 1];
      SeenAreCarriers(init, key, shape);
      SeenInNote(last, key, shape);
      SeenConcat(Observations(init), Shown(last, Ascending(last.frontmatter.Keys)), key, shape);
    }
  }

  lemma {:induction false} CarriersExact(notes: seq<Note>, key: string, shape: string)
    ensures Carriers(notes, key, shape) != [] <==> exists n <- notes :: Carries(n, key, shape)
    decreases |notes|
  {
    if notes != [] {
      CarriersExact(notes[..|notes| - 1], key, shape);
      assert notes == notes[..|notes| - 1] + [notes[|notes| - 1]];
    }
  }

  lemma TalliedCarriers(byKey: map<string, ShapeTallies>, notes: seq<Note>, key: string, shape: string)
    requires Tallied(byKey, Observations(notes))
    ensures TalliedAt(byKey, key, shape, Carriers(notes, key, shape))
    ensures (key in byKey && shape in byKey[key]) <==> exists n <- notes :: Carries(n, key, shape)
  {
    SeenAreCarriers(notes, key, shape);
    CarriersExact(notes, key, shape);
    assert TalliedAt(byKey, key, shape, Seen(Observations(notes), key, shape));
  }

  lemma TalliedKeys(byKey: map<string, ShapeTallies>, notes: seq<Note>, key: string)
    requires Tallied(byKey, Observations(notes))
    ensures key in byKey <==> key in KeysOf(notes)
  {
    if key in byKey {
      var s :| s in byKey[key];
      TalliedCarriers(byKey, notes, key, s);
      var n :| n in notes && Carries(n, key, s);
    }
    if key in KeysOf(notes) {
      var n :| n in notes && key in n.frontmatter;
      assert Carries(n, key, ShapeOf(n.frontmatter[key]));
      TalliedCarriers(byKey, notes, key, ShapeOf(n.frontmatter[key]));
    }
  }

  lemma TalliedShapes(byKey: map<string, ShapeTallies>, notes: seq<Note>, key: string)
    requires Tallied(byKey, Observations(notes)) && key in byKey
    ensures byKey[key].Keys == ShapesOf(notes, key)
  {
    forall s ensures s in byKey[key] <==> s in ShapesOf(notes, key) {
      TalliedCarriers(byKey, notes, key, s);
      assert s in ShapesOf(notes, key) <==> exists n <- notes :: Carries(n, key, s);
    }
  }

  lemma TalliesAre(byKey: map<string, ShapeTallies>, notes: seq<Note>)
    requires Tallied(byKey, Observations(notes))
    ensures byKey.Keys == KeysOf(notes)
    ensures forall k | k in byKey :: byKey[k].Keys == ShapesOf(notes, k)
    ensures forall k, s | k in byKey && s in byKey[k] :: byKey[k][s] == TallyOf(Carriers(notes, k, s))
  {
    forall k ensures k in byKey <==> k in KeysOf(notes) { TalliedKeys(byKey, notes, k); }
    forall k | k in byKey ensures byKey[k].Keys == ShapesOf(notes, k) { TalliedShapes(byKey, notes, k); }
    forall k, s | k in byKey && s in byKey[k] ensures byKey[k][s] == TallyOf(Carriers(notes, k, s)) {
      TalliedCarriers(byKey, notes, k, s);
    }
  }

  lemma DriftsExactly(notes: seq<Note>, key: string, shapes: ShapeTallies)
    requires shapes.Keys == ShapesOf(notes, key)
    ensures |shapes| > 1 <==> Drifts(notes, key)
  {
    AtMostOneKey(shapes);
    if a, b :| a in shapes && b in shapes && a != b {
      var x :| x in notes && key in x.frontmatter && ShapeOf(x.frontmatter[key]) == a;
      var y :| y in notes && key in y.frontmatter && ShapeOf(y.frontmatter[key]) == b;
      assert Drifts(notes, key);
    }
    if Drifts(notes, key) {
      var a, b :| a in notes && b in notes && key in a.frontmatter && key in b.frontmatter
        && ShapeOf(a.frontmatter[key]) != ShapeOf(b.frontmatter[key]);
      assert ShapeOf(a.frontmatter[key]) in shapes && ShapeOf(b.frontmatter[key]) in shapes;
    }
  }

  lemma ShownStep(note: Note, keys: seq<string>, j: nat)
    requires (forall k <- keys :: k in note.frontmatter) && j < |keys|
    ensures Shown(note, keys[..j + 1])
         == Shown(note, keys[..j]) + [Observation(keys[j], ShapeOf(note.frontmatter[keys[j]]), note.path)]
  {
  }

  lemma OneMoreShown(r: map<string, ShapeTallies>, obs: seq<Observation>, shown: seq<Observation>, o: Observation)
    requires Tallied(r, obs + shown)
    ensures Tallied(Counted(r, o), obs + (shown + [o]))
  {
    assert obs + (shown + [o]) == (obs + shown) + [o];
    CountedTallies(r, obs + shown, o);
  }

  /** The inner loop over one note's keys. */
  method TallyNote(byKey: map<string, ShapeTallies>, note: Note, keys: seq<string>, ghost obs: seq<Observation>)
    returns (r: map<string, ShapeTallies>)
    requires Tallied(byKey, obs) && forall k <- keys :: k in note.frontmatter
    ensures Tallied(r, obs + Shown(note, keys))
  {
    r := byKey;
    assert obs + Shown(note, []) == obs;
    for j := 0 to |keys|
      invariant Tallied(r, obs + Shown(note, keys[..j]))
    {
      var shape := ShapeOf(note.frontmatter[keys[j]]);
      ShownStep(note, keys, j);
      OneMoreShown(r, obs, Shown(note, keys[..j]), Observation(keys[j], shape, note.path));
      r := Count(r, keys[j], shape, note.path);
    }
    assert keys[..|keys|] == keys;
  }

  method TallyAll(notes: seq<Note>) returns (byKey: map<string, ShapeTallies>)
    ensures Tallied(byKey, Observations(notes))
  {
    byKey := map[];
    for i := 0 to |notes|
      invariant Tallied(byKey, Observations(notes[..i]))
    {
      assert notes[..i + 1][..i] == notes[..i];
      byKey := TallyNote(byKey, notes[i], Ascending(notes[i].frontmatter.Keys), Observations(notes[..i]));
    }
    assert notes[..|notes|] == notes;
  }

  lemma ShapeReportsAppend(notes: seq<Note>, key: string, names: seq<string>, i: nat)
    requires i < |names|
    ensures ShapeReports(notes, key, names[..i + 1])
         == ShapeReports(notes, key, names[..i]) + [ShapeReport(notes, key, names[i])]
  {
  }

  lemma KeyReportsAppend(notes: seq<Note>, keys: seq<string>, key: string)
    ensures KeyReports(notes, keys + [key]) == KeyReports(notes, keys) + [KeyReport(notes, key)]
  {
  }

  method ReportKey(key: string, shapes: ShapeTallies, ghost notes: seq<Note>) returns (r: TypeDrift)
    requires shapes.Keys == ShapesOf(notes, key)
    requires forall s | s in shapes :: shapes[s] == TallyOf(Carriers(notes, key, s))
    ensures r == KeyReport(notes, key)
  {
    var names := Ascending(shapes.Keys);
    var reports: seq<DriftShape> := [];
    for i := 0 to |names|
      invariant reports == ShapeReports(notes, key, names[..i])
    {
      reports := reports + [DriftShape(names[i], shapes[names[i]].count, shapes[names[i]].samples)];
      ShapeReportsAppend(notes, key, names, i);
    }
    assert names[..|names|] == names;
    r := TypeDrift(key, reports);
  }

  /** The filter over the collected keys. */
  method ReportKeys(byKey: map<string, ShapeTallies>, keys: seq<string>, ghost notes: seq<Note>)
    returns (r: seq<TypeDrift>)
    requires forall k <- keys :: k in byKey && byKey[k].Keys == ShapesOf(notes, k)
    requires forall k, s | k in byKey && s in byKey[k] :: byKey[k][s] == TallyOf(Carriers(notes, k, s))
    requires forall k <- keys :: k in KeysOf(notes)
    ensures r == KeyReports(notes, Among(keys, DriftingKeys(notes)))
  {
    ghost var drifting := DriftingKeys(notes);
    ghost var chosen := [];
    r := [];
    for i := 0 to |keys|
      invariant chosen == Among(keys[..i], drifting)
      invariant r == KeyReports(notes, chosen)
    {
      AmongStep(keys, drifting, i);
      DriftsExactly(notes, keys[i], byKey[keys[i]]);
      if |byKey[keys[i]]| > 1 {
        var report := ReportKey(keys[i], byKey[keys[i]], notes);
        r := r + [report];
        KeyReportsAppend(notes, chosen, keys[i]);
        chosen := chosen + [keys[i]];
      }
    }
    assert keys[..|keys|] == keys;
  }

  /** Reports exactly the keys two notes give different shapes, each shape with
      its true number of notes and its first three paths in scan order. */
  method DetectTypeDrift(notes: seq<Note>) returns (r: seq<TypeDrift>)
    ensures r == DriftReport(notes)
  {
    var byKey := TallyAll(notes);
    TalliesAre(byKey, notes);
    r := ReportKeys(byKey, Ascending(byKey.Keys), notes);
    AmongAscending(byKey.Keys, DriftingKeys(notes));
  }

  function Total(shapes: seq<DriftShape>): nat {
    if shapes == [] then 0 else Total(shapes[..|shapes| - 1]) + shapes[|shapes| - 1].count
  }

  /** How many notes have the key. */
  function Holders(notes: seq<Note>, key: string): nat {
    if notes == [] then 0
    else
      var last := notes[|notes| - 1];
      Holders(notes[..|notes| - 1], key) + if key in last.frontmatter then 1 else 0
  }

  lemma {:induction false} OneMoreNote(notes: seq<Note>, key: string, shapes: seq<string>)
    requires notes != [] && StrictlyAscending(shapes)
    ensures var init, last := notes[..|notes| - 1], notes[|notes| - 1];
            Total(ShapeReports(notes, key, shapes)) == Total(ShapeReports(init, key, shapes))
              + if key in last.frontmatter && ShapeOf(last.frontmatter[key]) in shapes then 1 else 0
    decreases |shapes|
  {
    if shapes != [] {
      var front, shape := shapes[..|shapes| - 1], shapes[|shapes| - 1];
      OneMoreNote(notes, key, front);
      DistinctHead(shapes, |shapes| - 1);
      assert shapes == front + [shape];
      TotalStep(notes, key, shapes);
      TotalStep(notes[..|notes| - 1], key, shapes);
    }
  }

  lemma TotalStep(notes: seq<Note>, key: string, shapes: seq<string>)
    requires shapes != []
    ensures Total(ShapeReports(notes, key, shapes))
         == Total(ShapeReports(notes, key, shapes[..|shapes| - 1])) + |Carriers(notes, key, shapes[|shapes| - 1])|
  {
    assert ShapeReports(notes, key, shapes)[..|shapes| - 1] == ShapeReports(notes, key, shapes[..|shapes| - 1]);
  }

  lemma {:induction false} NoNotesNoTotal(key: string, shapes: seq<string>)
    ensures Total(ShapeReports([], key, shapes)) == 0
    decreases |shapes|
  {
    if shapes != [] {
      NoNotesNoTotal(key, shapes[..|shapes| - 1]);
      TotalStep([], key, shapes);
    }
  }

  lemma {:induction false} ShapesShareTheHolders(notes: seq<Note>, key: string, shapes: seq<string>)
    requires StrictlyAscending(shapes)
    requires forall n <- notes | key in n.frontmatter :: ShapeOf(n.frontmatter[key]) in shapes
    ensures Total(ShapeReports(notes, key, shapes)) == Holders(notes, key)
    decreases |notes|
  {
    if notes == [] {
      NoNotesNoTotal(key, shapes);
    } else {
      ShapesShareTheHolders(notes[..|notes| - 1], key, shapes);
      OneMoreNote(notes, key, shapes);
    }
  }

  /** The report names a key exactly when two notes give it different shapes,
      and its counts add up to the notes that have the key. */
  lemma DriftReportExact(notes: seq<Note>, key: string)
    ensures (exists d <- DriftReport(notes) :: d.key == key) <==> Drifts(notes, key)
    ensures forall d <- DriftReport(notes) :: Total(d.shapes) == Holders(notes, d.key) && |d.shapes| > 1
  {
    KeyReportsHave(notes, Ascending(DriftingKeys(notes)), key);
    forall d | d in DriftReport(notes) ensures Total(d.shapes) == Holders(notes, d.key) && |d.shapes| > 1 {
      KeyReportsHave(notes, Ascending(DriftingKeys(notes)), d.key);
      KeyReportExact(notes, d.key);
    }
  }

  lemma KeyReportsHave(notes: seq<Note>, keys: seq<string>, key: string)
    requires forall k :: k in keys <==> k in DriftingKeys(notes)
    ensures (exists d <- KeyReports(notes, keys) :: d.key == key) <==> Drifts(notes, key)
    ensures forall d | d in KeyReports(notes, keys) && d.key == key :: d == KeyReport(notes, key)
  {
    var report := KeyReports(notes, keys);
    forall d | d in report && d.key == key ensures d == KeyReport(notes, key) && Drifts(notes, key) {
      var i :| 0 <= i < |report| && report[i] == d;
      assert keys[i] in keys && keys[i] == key;
    }
    if Drifts(notes, key) {
      assert key in KeysOf(notes);
      assert key in keys;
      var i :| 0 <= i < |keys| && keys[i] == key;
      assert report[i].key == key;
    }
  }

  /** Each shape of a reported key comes with the number of the notes that
      carry it and the first of their paths, three at most. */
  lemma ReportedShapes(notes: seq<Note>, d: TypeDrift, s: DriftShape)
    requires d in DriftReport(notes) && s in d.shapes
    ensures var paths := Carriers(notes, d.key, s.shape);
            && s.count == |paths|
            && |s.samples| == (if |paths| < 3 then |paths| else 3)
            && s.samples <= paths
  {
    KeyReportsHave(notes, Ascending(DriftingKeys(notes)), d.key);
    ShapeReportsHave(notes, d.key, Ascending(ShapesOf(notes, d.key)), s);
    FirstThree(Carriers(notes, d.key, s.shape));
  }

  lemma ShapeReportsHave(notes: seq<Note>, key: string, shapes: seq<string>, s: DriftShape)
    requires s in ShapeReports(notes, key, shapes)
    ensures s == ShapeReport(notes, key, s.shape)
  {
  }

  lemma FirstThree(paths: seq<string>)
    ensures |FirstSamples(paths)| == (if |paths| < 3 then |paths| else 3) && FirstSamples(paths) <= paths
  {
  }

  /** The carriers are the notes of that shape, in scan order. */
  lemma {:induction false} CarriersInOrder(notes: seq<Note>, key: string, shape: string, more: seq<Note>)
    ensures Carriers(notes + more, key, shape) == Carriers(notes, key, shape) + Carriers(more, key, shape)
    decreases |more|
  {
    if more == [] {
      assert notes + more == notes;
    } else {
      assert (notes + more)[..|notes + more| - 1] == notes + more[..|more| - 1];
      CarriersInOrder(notes, key, shape, more[..|more| - 1]);
    }
  }

  lemma OneCarrier(n: Note, key: string, shape: string)
    ensures Carriers([n], key, shape)
         == if key in n.frontmatter && ShapeOf(n.frontmatter[key]) == shape then [n.path] else []
  {
    assert [n][..0] == [];
  }

  lemma KeyReportExact(notes: seq<Note>, key: string)
    requires Drifts(notes, key)
    ensures KeyReport(notes, key).key == key
    ensures Total(KeyReport(notes, key).shapes) == Holders(notes, key) && |KeyReport(notes, key).shapes| > 1
  {
    var shapes := ShapesOf(notes, key);
    AscendingSorted(shapes);
    ShapesShareTheHolders(notes, key, Ascending(shapes));
    var a, b :| a in notes && b in notes && key in a.frontmatter && key in b.frontmatter
      && ShapeOf(a.frontmatter[key]) != ShapeOf(b.frontmatter[key]);
    SubsetSize({ShapeOf(a.frontmatter[key]), ShapeOf(b.frontmatter[key])}, shapes);
  }

  // ---- Path collisions -----------------------------------------------------------------------------

  datatype PathCollision = PathCollision(path: string, count: nat)

  function Members(paths: seq<string>): set<string> {
    set p | p in paths
  }

  function Repeated(paths: seq<string>): set<string> {
    set p | p in paths && multiset(paths)[p] > 1
  }

  function CollisionsOf(paths: seq<string>, repeated: seq<string>): seq<PathCollision> {
    seq(|repeated|, i requires 0 <= i < |repeated| => PathCollision(repeated[i], multiset(paths)[repeated[i]]))
  }

  method CountPaths(paths: seq<string>) returns (counts: map<string, nat>)
    ensures counts.Keys == Members(paths)
    ensures forall p | p in counts :: counts[p] == multiset(paths)[p]
  {
    counts := map[];
    for i := 0 to |paths|
      invariant counts.Keys == Members(paths[..i])
      invariant forall p | p in counts :: counts[p] == multiset(paths[..i])[p]
    {
      assert paths[..i + 1] == paths[..i] + [paths[i]];
      assert paths[i] in counts <==> paths[i] in multiset(paths[..i]);
      counts := counts[paths[i] := (if paths[i] in counts then counts[paths[i]] else 0) + 1];
    }
    assert paths[..|paths|] == paths;
  }

  /** Reports exactly the repeated paths with how often each occurs. */
  method DetectPathCollisions(paths: seq<string>) returns (r: seq<PathCollision>)
    ensures r == CollisionsOf(paths, Ascending(Repeated(paths)))
  {
    var counts := CountPaths(paths);
    var keys := Ascending(counts.Keys);
    ghost var chosen := [];
    r := [];
    for i := 0 to |keys|
      invariant chosen == Among(keys[..i], Repeated(paths))
      invariant r == CollisionsOf(paths, chosen)
    {
      AmongStep(keys, Repeated(paths), i);
      if counts[keys[i]] > 1 {
        r := r + [PathCollision(keys[i], counts[keys[i]])];
        chosen := chosen + [keys[i]];
      }
    }
    assert keys[..|keys|] == keys;
    AmongAscending(counts.Keys, Repeated(paths));
  }

  function PathsOf(notes: seq<Note>): seq<string> {
    seq(|notes|, i requires 0 <= i < |notes| => notes[i].path)
  }

  /** How many notes the reported collisions cost. */
  function Excess(collisions: seq<PathCollision>): int {
    if collisions == [] then 0
    else Excess(collisions[..|collisions| - 1]) + collisions[|collisions| - 1].count - 1
  }

  lemma {:induction false} ReplaceKeeps(m: NoteMap, notes: seq<Note>)
    ensures PutAll(m, notes).Keys == m.Keys + Members(PathsOf(notes))
    decreases |notes|
  {
    if notes != [] {
      ReplaceKeeps(m[notes[0].path := notes[0]], notes[1..]);
      assert PathsOf(notes) == [notes[0].path] + PathsOf(notes[1..]);
    }
  }

  lemma ExcessStep(paths: seq<string>, keys: seq<string>)
    requires keys != []
    ensures Excess(CollisionsOf(paths, keys))
         == Excess(CollisionsOf(paths, keys[..|keys| - 1])) + multiset(paths)[keys[|keys| - 1]] - 1
  {
    assert CollisionsOf(paths, keys)[..|keys| - 1] == CollisionsOf(paths, keys[..|keys| - 1]);
  }

  /** Paths that occur once add nothing. */
  lemma {:induction false} OnlyRepeatsCount(paths: seq<string>, keys: seq<string>)
    requires forall k <- keys :: k in paths
    ensures Excess(CollisionsOf(paths, Among(keys, Repeated(paths)))) == Excess(CollisionsOf(paths, keys))
    decreases |keys|
  {
    if keys != [] {
      var last := keys[|keys| - 1];
      OnlyRepeatsCount(paths, keys[..|keys| - 1]);
      ExcessStep(paths, keys);
      assert last in keys && last in multiset(paths) && multiset(paths)[last] >= 1;
      var before := Among(keys[..|keys| - 1], Repeated(paths));
      assert Among(keys, Repeated(paths)) == if last in Repeated(paths) then before + [last] else before;
      if last in Repeated(paths) {
        var chosen := Among(keys, Repeated(paths));
        assert chosen[..|chosen| - 1] == before;
        ExcessStep(paths, chosen);
      }
    }
  }

  /** The occurrences of the given keys. */
  function Occurrences(items: multiset<string>, keys: seq<string>): nat {
    if keys == [] then 0 else Occurrences(items, keys[..|keys| - 1]) + items[keys[|keys| - 1]]
  }

  lemma {:induction false} ExcessOverKeys(paths: seq<string>, keys: seq<string>)
    ensures Excess(CollisionsOf(paths, keys)) == Occurrences(multiset(paths), keys) - |keys|
    decreases |keys|
  {
    if keys != [] {
      ExcessOverKeys(paths, keys[..|keys| - 1]);
      ExcessStep(paths, keys);
    }
  }

  lemma {:induction false} SameOccurrences(a: multiset<string>, b: multiset<string>, keys: seq<string>)
    requires forall k <- keys :: a[k] == b[k]
    ensures Occurrences(a, keys) == Occurrences(b, keys)
    decreases |keys|
  {
    if keys != [] { SameOccurrences(a, b, keys[..|keys| - 1]); }
  }

  lemma {:induction false} OccurrencesAreAll(items: multiset<string>, keys: seq<string>)
    requires StrictlyAscending(keys) && forall k :: k in items <==> k in keys
    ensures Occurrences(items, keys) == |items|
    decreases |keys|
  {
    if keys == [] {
      assert items == multiset{};
    } else {
      var init, last := keys[..|keys| - 1], keys[|keys| - 1];
      var fewer := items[last := 0];
      DistinctHead(keys, |keys| - 1);
      assert keys == init + [last];
      OccurrencesAreAll(fewer, init);
      SameOccurrences(items, fewer, init);
    }
  }

  /** The reported collisions cost exactly the notes the store does not keep
      when the same notes are loaded into it; so the report is empty exactly
      when it keeps every one of them. */
  lemma CollisionsAreTheLoss(notes: seq<Note>)
    ensures var report := CollisionsOf(PathsOf(notes), Ascending(Repeated(PathsOf(notes))));
            && Excess(report) == |notes| - |PutAll(map[], notes)|
            && (report == [] <==> |PutAll(map[], notes)| == |notes|)
  {
    var paths := PathsOf(notes);
    var all := Members(paths);
    ReplaceKeeps(map[], notes);
    assert PutAll(map[], notes).Keys == all;
    AmongAscending(all, Repeated(paths));
    OnlyRepeatsCount(paths, Ascending(all));
    ExcessOverKeys(paths, Ascending(all));
    AscendingSorted(all);
    OccurrencesAreAll(multiset(paths), Ascending(all));
    CollisionsCost(paths, Ascending(Repeated(paths)));
  }

  lemma {:induction false} CollisionsCost(paths: seq<string>, keys: seq<string>)
    requires forall k <- keys :: multiset(paths)[k] > 1
    ensures Excess(CollisionsOf(paths, keys)) >= |keys|
    decreases |keys|
  {
    if keys != [] {
      CollisionsCost(paths, keys[..|keys| - 1]);
      ExcessStep(paths, keys);
    }
  }
}
