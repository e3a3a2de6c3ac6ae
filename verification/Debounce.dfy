/** One whole debounce window, and how it runs as steps of the protocol. */
module Debounce {
  import opened Text
  import opened Notes
  import opened Paths
  import opened Vault
  import opened Watcher
  import opened App
  import opened Protocol
  import opened Runs

  /** What `run_debouncer` does with the events of one window. */
  method HandleWindow(vault: Node, root: seq<string>, events: seq<Notify>) returns (rescan: bool, cast: Option<Message>)
    ensures rescan <==> Overflowed(events)
    ensures var actions := WindowActions(vault, root, events);
            cast == if actions == [] then None else Some(Batch(Built(vault, Coalesced(actions))))
  {
    rescan := false;
    var actions: seq<WatchAction> := [];
    for i := 0 to |events|
      invariant rescan <==> Overflowed(events[..i])
      invariant actions == WindowActions(vault, root, events[..i])
    {
      assert events[..i + 1] == events[..i] + [events[i]];
      assert Overflowed(events[..i + 1]) <==> Overflowed(events[..i]) || SignalsOverflow(events[i]);
      CollectConcat(events[..i], [events[i]], Mapped(vault, root));
      CollectOne(events[i], Mapped(vault, root));
      match events[i] {
        case Delivered(event) =>
          if IsOverflow(event) { rescan := true; }
          var more := MapEvent(vault, root, event);
          actions := actions + more;
        case NotifyError =>
      }
    }
    assert events[..|events|] == events;
    var batch := Coalesce(actions);
    CoalescedCoalesces(actions);
    CoalescesUnique(actions, batch, Coalesced(actions));
    EmptyExactly(actions, batch);
    if batch == WatchBatch([], [], [], []) { return rescan, None; }
    var built := BuildIndexBatch(vault, batch);
    cast := Some(Batch(built));
  }

  // ---- The same window, step by step -----------------------------------------------------------

  /** The debouncer with these files read and these directories walked. */
  function WithRead(d: Debouncer, paths: seq<string>, trees: seq<string>, notes: seq<Note>,
    missing: seq<string>): Debouncer
    requires d.Reading?
  {
    Reading(paths, trees, d.prefixes, d.upserts + notes, d.deletes + missing, d.overflow)
  }

  lemma ReadsOne(root: seq<string>, s0: State, s: State, rules: set<Rule>) returns (t: State)
    requires Reaches(root, s0, s, rules) && s.debouncer.Reading? && s.debouncer.paths != []
    ensures Reaches(root, s0, t, rules)
    ensures var d, p := s.debouncer, s.debouncer.paths[0];
            t == s.(debouncer := WithRead(d, d.paths[1..], d.trees, ReadNote(s.vault)(p), MissingNote(s.vault)(p)))
  {
    var d := s.debouncer;
    assert d.upserts + [] == d.upserts && d.deletes + [] == d.deletes;
    t := Do(root, s0, s, ReadOne, rules);
  }

  lemma ReadTwice(d: Debouncer, a: seq<Note>, b: seq<Note>, x: seq<string>, y: seq<string>)
    requires d.Reading?
    ensures WithRead(WithRead(d, [], [], a, x), [], [], b, y) == WithRead(d, [], [], a + b, x + y)
  {
    assert (d.upserts + a) + b == d.upserts + (a + b);
    assert (d.deletes + x) + y == d.deletes + (x + y);
  }

  lemma {:induction false} ReadsAll(root: seq<string>, s0: State, s: State, rules: set<Rule>) returns (t: State)
    requires Reaches(root, s0, s, rules) && s.debouncer.Reading?
    ensures Reaches(root, s0, t, rules)
    ensures var d := s.debouncer;
            t == s.(debouncer := WithRead(d, [], d.trees, Collect(d.paths, ReadNote(s.vault)),
                                          Collect(d.paths, MissingNote(s.vault))))
    decreases |s.debouncer.paths|
  {
    var d := s.debouncer;
    if d.paths == [] {
      assert d.upserts + [] == d.upserts && d.deletes + [] == d.deletes;
      t := s;
    } else {
      var p, rest := d.paths[0], d.paths[1..];
      var u := ReadsOne(root, s0, s, rules);
      ReadTwice(d, ReadNote(s.vault)(p), Collect(rest, ReadNote(s.vault)),
                MissingNote(s.vault)(p), Collect(rest, MissingNote(s.vault)));
      t := ReadsAll(root, s0, u, rules);
    }
  }

  lemma WalksOne(root: seq<string>, s0: State, s: State, rules: set<Rule>) returns (t: State)
    requires Reaches(root, s0, s, rules) && s.debouncer.Reading? && s.debouncer.paths == [] && s.debouncer.trees != []
    ensures Reaches(root, s0, t, rules)
    ensures var d := s.debouncer;
            t == s.(debouncer := WithRead(d, [], d.trees[1..], WalkedNotes(s.vault)(d.trees[0]), []))
  {
    var d := s.debouncer;
    assert d.deletes + [] == d.deletes;
    t := Do(root, s0, s, StartWalk, rules);
    t := Do(root, s0, t, FinishWalk(ScanNotes(s.vault, Segments(d.trees[0]))), rules);
  }

  lemma {:induction false} WalksAll(root: seq<string>, s0: State, s: State, rules: set<Rule>) returns (t: State)
    requires Reaches(root, s0, s, rules) && s.debouncer.Reading? && s.debouncer.paths == []
    ensures Reaches(root, s0, t, rules)
    ensures var d := s.debouncer;
            t == s.(debouncer := WithRead(d, [], [], Collect(d.trees, WalkedNotes(s.vault)), []))
    decreases |s.debouncer.trees|
  {
    var d := s.debouncer;
    if d.trees == [] {
      assert d.upserts + [] == d.upserts && d.deletes + [] == d.deletes;
      t := s;
    } else {
      var dir, rest := d.trees[0], d.trees[1..];
      var u := WalksOne(root, s0, s, rules);
      ReadTwice(d, WalkedNotes(s.vault)(dir), Collect(rest, WalkedNotes(s.vault)), [], []);
      t := WalksAll(root, s0, u, rules);
    }
  }

  /** On a vault that stands still the protocol can take a window through to
      exactly the rescan and the message the debouncer's loop body produces. */
  lemma WindowRunsAsProtocol(root: seq<string>, s: State, rules: set<Rule>) returns (t: State)
    requires s.debouncer.Window? && s.debouncer.events != []
    requires NoCastDuringRescan in rules ==> s.walk.None?
    ensures Reaches(root, s, t, rules)
    ensures var events := s.debouncer.events;
            var actions := WindowActions(s.vault, root, events);
            t == s.(debouncer := Window([]),
                    rescans := s.rescans + (if Overflowed(events) then 1 else 0),
                    mailbox := s.mailbox + (if actions == [] then [] else [Batch(Built(s.vault, Coalesced(actions)))]))
  {
    var actions := WindowActions(s.vault, root, s.debouncer.events);
    t := WindowCoalesces(root, s, rules);
    if actions != [] {
      t := BuildsAndCasts(root, s, t, Coalesced(actions), rules);
    } else {
      assert s.mailbox + [] == s.mailbox;
    }
  }

  lemma WindowMaps(root: seq<string>, s: State, rules: set<Rule>) returns (t: State)
    requires s.debouncer.Window? && s.debouncer.events != []
    ensures Reaches(root, s, t, rules)
    ensures var events := s.debouncer.events;
            t == s.(debouncer := Classifying([], WindowActions(s.vault, root, events), Overflowed(events)))
  {
    var none: seq<Step> := [];
    assert After(root, s, none) == s;
    t := Do(root, s, s, CloseWindow, rules);
    t := MapsAll(root, s, t, rules);
    assert [] + WindowActions(s.vault, root, s.debouncer.events) == WindowActions(s.vault, root, s.debouncer.events);
  }

  lemma WindowCoalesces(root: seq<string>, s: State, rules: set<Rule>) returns (t: State)
    requires s.debouncer.Window? && s.debouncer.events != []
    ensures Reaches(root, s, t, rules)
    ensures var events := s.debouncer.events;
            var actions := WindowActions(s.vault, root, events);
            t == s.(debouncer := if actions == [] then Window([])
                                 else ReadingOf(Coalesced(actions), Overflowed(events)),
                    rescans := s.rescans + (if Overflowed(events) then 1 else 0))
  {
    var actions := WindowActions(s.vault, root, s.debouncer.events);
    t := WindowMaps(root, s, rules);
    CoalescedCoalesces(actions);
    EmptyExactly(actions, Coalesced(actions));
    t := Do(root, s, t, CoalesceWindow(Coalesced(actions)), rules);
  }

  lemma ReadAndWalked(vault: Node, b: WatchBatch, d: Debouncer, e: Debouncer)
    requires d.Reading? && d == ReadingOf(b, d.overflow)
    requires e == WithRead(WithRead(d, [], b.upsertTrees, Collect(b.upserts, ReadNote(vault)),
                                    Collect(b.upserts, MissingNote(vault))),
                           [], [], Collect(b.upsertTrees, WalkedNotes(vault)), [])
    ensures e.Reading? && IndexBatch(e.upserts, e.deletes, e.prefixes) == Built(vault, b)
    ensures e.paths == [] && e.trees == []
  {
    var notes, missing := Collect(b.upserts, ReadNote(vault)), Collect(b.upserts, MissingNote(vault));
    assert [] + notes == notes && (b.deletes + missing) + [] == b.deletes + missing;
  }

  lemma BuildsAndCasts(root: seq<string>, s0: State, s: State, b: WatchBatch, rules: set<Rule>) returns (t: State)
    requires Reaches(root, s0, s, rules) && s.debouncer.Reading?
    requires s.debouncer == ReadingOf(b, s.debouncer.overflow)
    requires NoCastDuringRescan in rules ==> s.walk.None?
    ensures Reaches(root, s0, t, rules)
    ensures t == s.(debouncer := Window([]), mailbox := s.mailbox + [Batch(Built(s.vault, b))])
  {
    t := ReadsAll(root, s0, s, rules);
    t := WalksAll(root, s0, t, rules);
    ReadAndWalked(s.vault, b, s.debouncer, t.debouncer);
    t := Do(root, s0, t, CastBatch, rules);
  }
}
