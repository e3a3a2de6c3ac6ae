/** Cutting a Markdown source into its frontmatter and its body. */
module Frontmatter {
  import opened Text

  const OPENER := "---\n"
  const FENCE := "\n---"

  /** `s.find(pattern)`. */
  function FindText(s: string, pattern: string): (r: Option<nat>)
    ensures r.Some? ==> r.value + |pattern| <= |s| && s[r.value..r.value + |pattern|] == pattern
    ensures r.Some? ==> forall i | 0 <= i < r.value :: !(pattern <= s[i..])
    ensures r.None? ==> forall i | 0 <= i <= |s| :: !(pattern <= s[i..])
  {
    if pattern <= s then Some(0)
    else if s == [] then None
    else
      match FindText(s[1..], pattern)
      case Some(i) =>
        assert forall k | 0 < k <= i :: s[k..] == s[1..][k - 1..];
        assert s[i + 1..i + 1 + |pattern|] == s[1..][i..i + |pattern|];
        Some(i + 1)
      case None =>
        assert forall k | 0 < k <= |s| :: s[k..] == s[1..][k - 1..];
        None
  }

  /** A line of exactly `---` starts at `k`, and it is not the first line. */
  predicate IsClose(s: string, k: int) {
    && 1 <= k <= |s| - 3
    && s[k - 1] == '\n' && s[k] == '-' && s[k + 1] == '-' && s[k + 2] == '-'
    && (k + 3 == |s| || s[k + 3] == '\n')
  }

  function LeastClose(s: string, from: nat): (r: Option<nat>)
    ensures r.Some? ==> from <= r.value && IsClose(s, r.value)
    ensures forall k | from <= k < (if r.Some? then r.value else |s| + 1) :: !IsClose(s, k)
    decreases |s| - from
  {
    if |s| <= from then None
    else if IsClose(s, from) then Some(from)
    else LeastClose(s, from + 1)
  }

  /** The yaml and the body of a source. */
  function Parts(src: string): (string, string) {
    if !(OPENER <= src) then ("", src)
    else
      var s := src[|OPENER|..];
      match LeastClose(s, 0)
      case None => ("", src)
      case Some(k) => (s[..k], if k + 3 == |s| then "" else s[k + 4..])
  }

  /** Three dashes begin a line at `at`. */
  predicate FencedAt(s: string, at: int) {
    1 <= at <= |s| - 3 && s[at - 1] == '\n' && s[at] == '-' && s[at + 1] == '-' && s[at + 2] == '-'
  }

  /** The next fence from `start` on; no closing line is passed over. */
  method NextFence(s: string, start: nat) returns (r: Option<nat>)
    requires start <= |s| && forall k | k <= start :: !IsClose(s, k)
    ensures r.Some? ==> start < r.value && FencedAt(s, r.value)
    ensures forall k | k < (if r.Some? then r.value else |s|) :: !IsClose(s, k)
  {
    var found := FindText(s[start..], FENCE);
    SearchedTo(s, start);
    if found.None? { return None; }
    FenceThere(s, start, found.value);
    r := Some(start + found.value + 1);
  }

  method SplitFrontmatter(src: string) returns (yaml: string, body: string)
    ensures (yaml, body) == Parts(src)
  {
    if !(OPENER <= src) {
      return "", src;
    }
    var afterOpen := src[|OPENER|..];
    var searchStart := 0;
    while true
      invariant 0 <= searchStart <= |afterOpen|
      invariant forall k | k <= searchStart :: !IsClose(afterOpen, k)
      decreases |afterOpen| - searchStart
    {
      var found := NextFence(afterOpen, searchStart);
      if found.None? {
        NeverClosed(afterOpen);
        return "", src;
      }
      var at := found.value;
      var afterClose := afterOpen[at + 3..];
      if afterClose == "" || "\n" <= afterClose {
        ClosedAt(afterOpen, at);
        yaml := afterOpen[..at];
        body := if afterClose == "" then afterClose else afterClose[1..];
        return;
      }
      searchStart := at + 3;
    }
  }

  lemma ClosedAt(s: string, k: nat)
    requires IsClose(s, k) && forall j | j < k :: !IsClose(s, j)
    ensures LeastClose(s, 0) == Some(k)
  {
  }

  lemma NeverClosed(s: string)
    requires forall j | j < |s| :: !IsClose(s, j)
    ensures LeastClose(s, 0) == None
  {
  }

  /** A search passes over no closing line. */
  lemma SearchedTo(s: string, from: nat)
    requires from <= |s| && forall k | k <= from :: !IsClose(s, k)
    ensures var found := FindText(s[from..], FENCE);
            forall k | k < (if found.Some? then from + found.value + 1 else |s|) :: !IsClose(s, k)
  {
    var found := FindText(s[from..], FENCE);
    forall k | k < (if found.Some? then from + found.value + 1 else |s|) ensures !IsClose(s, k) {
      if IsClose(s, k) && k > from {
        FenceAt(s, from, k);
      }
    }
  }

  /** Every closing line shows up in the search as a fence. */
  lemma FenceAt(s: string, from: nat, k: int)
    requires IsClose(s, k) && from < k
    ensures FENCE <= s[from..][k - 1 - from..]
  {
    assert s[from..][k - 1 - from..] == s[k - 1..];
  }

  lemma FenceThere(s: string, from: nat, i: nat)
    requires from <= |s| && i + 4 <= |s| - from && s[from..][i..i + 4] == FENCE
    ensures FencedAt(s, from + i + 1)
  {
    var w := s[from..][i..i + 4];
    assert w[0] == s[from + i] && w[1] == s[from + i + 1] && w[2] == s[from + i + 2] && w[3] == s[from + i + 3];
  }

  /** The source put back together from a frontmatter block and a body; the
      newline after the closing line is missing only at the end of the file. */
  predicate Rebuilds(src: string, yaml: string, sep: string, body: string) {
    && (sep == "\n" || (sep == "" && body == ""))
    && src == "---\n" + yaml + "---" + sep + body
  }

  /** The first closing line ends the yaml. */
  ghost predicate ClosedFirst(src: string, yaml: string) {
    && OPENER <= src
    && IsClose(src[|OPENER|..], |yaml|)
    && forall k | k < |yaml| :: !IsClose(src[|OPENER|..], k)
  }

  /** Nothing is lost: the body is the whole source, or the source is its
      parts put back together, cut at the first closing line. */
  lemma NothingIsLost(src: string)
    ensures var (yaml, body) := Parts(src);
            || (yaml == "" && body == src)
            || (ClosedFirst(src, yaml) && (Rebuilds(src, yaml, "\n", body) || Rebuilds(src, yaml, "", body)))
  {
    if OPENER <= src && LeastClose(src[|OPENER|..], 0).Some? {
      var s := src[|OPENER|..];
      var k := LeastClose(s, 0).value;
      assert src == OPENER + s;
      assert s[k..k + 3] == "---";
      if k + 3 == |s| {
        assert s == s[..k] + "---";
        assert src == OPENER + s[..k] + "---" + "" + "";
      } else {
        assert s == s[..k] + "---" + "\n" + s[k + 4..];
        assert src == OPENER + s[..k] + "---" + "\n" + s[k + 4..];
      }
    }
  }

  /** The source without an opener, or without a closing line, is untouched. */
  lemma UntouchedExactly(src: string)
    ensures Parts(src) == ("", src) <==> !("---\n" <= src) || forall k :: !IsClose(src[4..], k)
  {
    if OPENER <= src && LeastClose(src[|OPENER|..], 0).Some? {
      NothingIsLost(src);
    }
  }

  predicate InnerClose(yaml: string, i: int) {
    0 <= i <= |yaml| - 5 && yaml[i..i + 5] == "\n---\n"
  }

  ghost predicate HoldsClose(yaml: string) {
    exists i :: InnerClose(yaml, i)
  }

  function Assembled(yaml: string, body: string): string {
    "---\n" + yaml + "---\n" + body
  }

  /** Splitting undoes assembling for newline-terminated yaml exactly when
      the yaml is not empty and holds no closing line of its own.  An empty
      block, `---` directly followed by `---`, is not recognised. */
  lemma SplitUndoesAssemble(yaml: string, body: string)
    requires yaml == "" || yaml[|yaml| - 1] == '\n'
    ensures Parts(Assembled(yaml, body)) == (yaml, body) <==> yaml != "" && !HoldsClose(yaml)
  {
    var src := Assembled(yaml, body);
    var s := src[|OPENER|..];
    assert s == yaml + "---\n" + body;
    if yaml == "" {
      assert |src| > |body|;
    } else {
      assert s[|yaml| + 4..] == body && s[..|yaml|] == yaml;
      assert IsClose(s, |yaml|);
      forall k | 1 <= k < |yaml| ensures IsClose(s, k) <==> InnerClose(yaml, k - 1) {
        CloseInside(yaml, s, k);
      }
      if HoldsClose(yaml) {
        var i :| InnerClose(yaml, i);
        assert IsClose(s, i + 1);
        assert |Parts(src).0| < |yaml|;
      }
    }
  }

  /** The same at the end of the file, where no newline need follow. */
  lemma SplitUndoesAssembleAtEnd(yaml: string)
    requires yaml == "" || yaml[|yaml| - 1] == '\n'
    ensures Parts("---\n" + yaml + "---") == (yaml, "") <==> yaml != "" && !HoldsClose(yaml)
  {
    var src := "---\n" + yaml + "---";
    var s := src[|OPENER|..];
    assert s == yaml + "---";
    if yaml == "" {
      assert forall k :: !IsClose(s, k);
    } else {
      assert s[..|yaml|] == yaml;
      assert IsClose(s, |yaml|);
      forall k | 1 <= k < |yaml| ensures IsClose(s, k) <==> InnerClose(yaml, k - 1) {
        CloseInside(yaml, s, k);
      }
      if HoldsClose(yaml) {
        var i :| InnerClose(yaml, i);
        assert IsClose(s, i + 1);
        assert |Parts(src).0| < |yaml|;
      }
    }
  }

  /** Four dashes, or dashes with text after them, close nothing. */
  lemma OnlyExactLines(s: string, k: nat)
    requires IsClose(s, k)
    ensures s[k - 1..][..4] == FENCE && (s[k + 3..] == "" || "\n" <= s[k + 3..])
  {
    assert s[k - 1..][..4] == ['\n', '-', '-', '-'];
  }

  lemma CloseInside(yaml: string, s: string, k: int)
    requires 1 <= k < |yaml| && yaml[|yaml| - 1] == '\n' && yaml <= s
    ensures IsClose(s, k) <==> InnerClose(yaml, k - 1)
  {
    assert s[..|yaml|] == yaml;
    assert forall j | 0 <= j < |yaml| :: s[j] == yaml[j];
    if k + 4 <= |yaml| {
      var w := yaml[k - 1..k + 4];
      assert w[0] == s[k - 1] && w[1] == s[k] && w[2] == s[k + 1] && w[3] == s[k + 2] && w[4] == s[k + 3];
    } else {
      assert s[|yaml| - 1] == '\n';
    }
  }
}
