/** Building runs of the protocol step by step. */
module Runs {
  import opened Vault
  import opened Watcher
  import opened Protocol

  lemma {:induction false} Extend(root: seq<string>, s0: State, steps: seq<Step>, step: Step, rules: set<Rule>)
    requires RunUnder(root, s0, steps, rules) && Run(root, s0, steps)
    requires Enabled(After(root, s0, steps), step) && Respects(After(root, s0, steps), step, rules)
    ensures RunUnder(root, s0, steps + [step], rules) && Run(root, s0, steps + [step])
    ensures After(root, s0, steps + [step]) == Next(root, After(root, s0, steps), step)
    decreases |steps|
  {
    if steps == [] {
      assert [step][1..] == [];
    } else {
      assert (steps + [step])[1..] == steps[1..] + [step];
      Extend(root, Next(root, s0, steps[0]), steps[1..], step, rules);
    }
  }

  ghost predicate Reaches(root: seq<string>, s: State, t: State, rules: set<Rule>) {
    exists steps :: RunUnder(root, s, steps, rules) && Run(root, s, steps) && After(root, s, steps) == t
  }

  lemma Do(root: seq<string>, s0: State, s: State, step: Step, rules: set<Rule>) returns (t: State)
    requires Reaches(root, s0, s, rules) && Enabled(s, step) && Respects(s, step, rules)
    ensures t == Next(root, s, step) && Reaches(root, s0, t, rules)
  {
    t := Next(root, s, step);
    var steps :| RunUnder(root, s0, steps, rules) && Run(root, s0, steps) && After(root, s0, steps) == s;
    Extend(root, s0, steps, step, rules);
  }

  lemma MapsOne(root: seq<string>, s0: State, s: State, rules: set<Rule>) returns (t: State)
    requires Reaches(root, s0, s, rules) && s.debouncer.Classifying? && s.debouncer.todo != []
    ensures Reaches(root, s0, t, rules)
    ensures var d, n := s.debouncer, s.debouncer.todo[0];
            t == s.(debouncer := Classifying(d.todo[1..], d.actions + ActionsAt(s.vault, root, n),
                                             d.overflow || SignalsOverflow(n)))
  {
    t := Do(root, s0, s, MapOne, rules);
  }

  lemma MappedHead(vault: Node, root: seq<string>, actions: seq<WatchAction>, todo: seq<Notify>)
    requires todo != []
    ensures actions + WindowActions(vault, root, todo)
         == actions + ActionsAt(vault, root, todo[0]) + WindowActions(vault, root, todo[1..])
    ensures Overflowed(todo) <==> SignalsOverflow(todo[0]) || Overflowed(todo[1..])
  {
    assert todo == [todo[0]] + todo[1..];
  }

  lemma WindowOfOne(vault: Node, root: seq<string>, n: Notify)
    ensures WindowActions(vault, root, [n]) == ActionsAt(vault, root, n)
    ensures Overflowed([n]) <==> SignalsOverflow(n)
  {
    CollectOne(n, Mapped(vault, root));
    assert n in [n];
  }

  lemma WindowJoins(vault: Node, root: seq<string>, a: seq<Notify>, b: seq<Notify>)
    ensures WindowActions(vault, root, a + b) == WindowActions(vault, root, a) + WindowActions(vault, root, b)
    ensures Overflowed(a + b) <==> Overflowed(a) || Overflowed(b)
  {
    CollectConcat(a, b, Mapped(vault, root));
  }

  lemma {:induction false} MapsAll(root: seq<string>, s0: State, s: State, rules: set<Rule>) returns (t: State)
    requires Reaches(root, s0, s, rules) && s.debouncer.Classifying?
    ensures Reaches(root, s0, t, rules)
    ensures var d := s.debouncer;
            t == s.(debouncer := Classifying([], d.actions + WindowActions(s.vault, root, d.todo),
                                             d.overflow || Overflowed(d.todo)))
    decreases |s.debouncer.todo|
  {
    var d := s.debouncer;
    if d.todo == [] {
      assert d.actions + [] == d.actions;
      t := s;
    } else {
      var u := MapsOne(root, s0, s, rules);
      MappedHead(s.vault, root, d.actions, d.todo);
      t := MapsAll(root, s0, u, rules);
    }
  }
}
