/** Vault-relative paths: forward-slash text and its components. */
module Paths {
  import opened Text

  function Segments(path: string): (segs: seq<string>)
    ensures |segs| >= 1
  {
    Split(path, '/')
  }

  function PathOf(segs: seq<string>): string {
    Join(segs, '/')
  }

  /** A non-empty component. */
  predicate ValidName(name: string) {
    name != [] && '/' !in name
  }

  predicate ValidNames(segs: seq<string>) {
    forall s <- segs :: ValidName(s)
  }

  predicate ValidPath(path: string) {
    ValidNames(Segments(path))
  }

  predicate DotPrefixed(name: string) {
    "." <= name
  }

  predicate NoDots(segs: seq<string>) {
    forall s <- segs :: !DotPrefixed(s)
  }

  predicate Visible(path: string) {
    NoDots(Segments(path))
  }

  function LastDot(name: string): (i: int)
    ensures -1 <= i < |name|
    ensures i >= 0 ==> name[i] == '.'
    ensures forall j | i < j < |name| :: name[j] != '.'
  {
    if name == [] then -1
    else if name[|name| - 1] == '.' then |name| - 1
    else LastDot(name[..|name| - 1])
  }

  /** `Path::extension` of a file name. */
  function Extension(name: string): Option<string> {
    var i := LastDot(name);
    if i <= 0 || name == ".." then None else Some(name[i + 1..])
  }

  predicate IsMarkdown(path: string) {
    var segs := Segments(path);
    Extension(segs[|segs| - 1]) == Some("md")
  }

  /** A path the index may hold a note for. */
  predicate Indexable(path: string) {
    ValidPath(path) && Visible(path) && IsMarkdown(path)
  }

  /** `path.trim_end_matches('/')`. */
  function TrimEnd(dir: string): string {
    if dir != [] && dir[|dir| - 1] == '/' then TrimEnd(dir[..|dir| - 1]) else dir
  }

  /** Every slash at the end is gone, and nothing else. */
  lemma {:induction false} TrimEndExact(dir: string)
    ensures TrimEnd(dir) <= dir && forall i | |TrimEnd(dir)| <= i < |dir| :: dir[i] == '/'
    ensures TrimEnd(dir) == [] || TrimEnd(dir)[|TrimEnd(dir)| - 1] != '/'
  {
    if dir != [] && dir[|dir| - 1] == '/' { TrimEndExact(dir[..|dir| - 1]); }
  }

  /** `path` lies inside the directory `dir`. */
  predicate Under(path: string, dir: string) {
    TrimEnd(dir) + "/" <= path
  }

  predicate UnderAny(path: string, dirs: seq<string>) {
    exists dir <- dirs :: Under(path, dir)
  }

  // ---- Text prefixes and component prefixes agree -----------------------------------

  lemma SegmentsOfPath(segs: seq<string>)
    requires segs != [] && ValidNames(segs)
    ensures Segments(PathOf(segs)) == segs && ValidPath(PathOf(segs))
  {
    SplitJoin(segs, '/');
  }

  lemma PathOfSegments(path: string)
    ensures PathOf(Segments(path)) == path
  {
    JoinSplit(path, '/');
  }

  lemma {:induction false} LastNotSlash(path: string)
    requires ValidPath(path)
    ensures path != [] && path[|path| - 1] != '/'
  {
    assert Segments(path)[|Segments(path)| - 1] in Segments(path);
    if path != [] && path[|path| - 1] == '/' {
      var init := path[..|path| - 1];
      assert path == init + ['/'] + [];
      SplitConcat(init, [], '/');
    }
  }

  /** Lying inside a directory as text is lying inside it component by
      component: a sibling that shares the name as a prefix is not inside. */
  lemma UnderIsProperPrefix(path: string, dir: string)
    requires ValidPath(dir)
    ensures TrimEnd(dir) == dir
    ensures Under(path, dir) <==> Segments(dir) < Segments(path)
  {
    LastNotSlash(dir);
    if Under(path, dir) {
      var rest := path[|dir| + 1..];
      assert path == dir + ['/'] + rest;
      SplitConcat(dir, rest, '/');
    }
    if Segments(dir) < Segments(path) {
      var d, p := Segments(dir), Segments(path);
      assert p == d + p[|d|..];
      JoinConcat(d, p[|d|..], '/');
      PathOfSegments(dir);
      PathOfSegments(path);
    }
  }

  /** Two directories above one path are nested. */
  lemma UnderNested(path: string, a: string, b: string)
    requires ValidPath(a) && ValidPath(b) && Under(path, a) && Under(path, b)
    ensures a == b || Under(a, b) || Under(b, a)
  {
    UnderIsProperPrefix(path, a);
    UnderIsProperPrefix(path, b);
    UnderIsProperPrefix(a, b);
    UnderIsProperPrefix(b, a);
    PathOfSegments(a);
    PathOfSegments(b);
    var p, x, y := Segments(path), Segments(a), Segments(b);
    assert x == p[..|x|] && y == p[..|y|];
    if |x| < |y| { assert x == y[..|x|]; } else if |y| < |x| { assert y == x[..|y|]; }
  }

  lemma UnderTransitive(path: string, a: string, b: string)
    requires ValidPath(a) && ValidPath(b) && Under(path, a) && Under(a, b)
    ensures Under(path, b)
  {
    UnderIsProperPrefix(path, a);
    UnderIsProperPrefix(path, b);
    UnderIsProperPrefix(a, b);
  }

  lemma NotUnderItself(path: string)
    requires ValidPath(path)
    ensures !Under(path, path)
  {
    UnderIsProperPrefix(path, path);
  }
}
