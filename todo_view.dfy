/** What the list renders from a state: the items the filter shows, in order, and the
    "items left" count the stats bar prints, which is taken over the shown items. */
module TodoView {
  import Seq = Sequences
  import opened TodoReducer

  /** Whether an item passes a filter. `All` keeps everything; the source's `default`
      branch, which no value of the three-valued filter reaches, shares that answer. */
  predicate Shows(f: Filter, t: Todo) {
    match f
    case Completed => IsCompleted(t)
    case Active => IsActive(t)
    case All => true
  }

  function Passes(f: Filter): Todo -> bool {
    (t: Todo) => Shows(f, t)
  }

  /** The shown list: the items that pass the current filter, in list order. */
  function Shown(s: State): (r: seq<Todo>)
    ensures |r| <= |s.todos|
    ensures forall i :: 0 <= i < |r| ==> r[i] in s.todos && Shows(s.filter, r[i])
    ensures forall i :: 0 <= i < |s.todos| && Shows(s.filter, s.todos[i]) ==> s.todos[i] in r
  {
    Seq.Filter(s.todos, Passes(s.filter))
  }

  /** The number of not-completed items among the shown ones: the stats bar is handed
      the shown list, not the whole list. */
  function ItemsLeft(s: State): (n: nat)
    ensures n <= |Shown(s)|
    ensures s.filter == Completed ==> n == 0
    ensures s.filter == Active ==> n == |Shown(s)|
    ensures s.filter != Completed ==> n == Seq.Count(s.todos, IsActive)
  {
    var shown := Shown(s);
    Seq.FilterDropsAll(shown, IsActive);
    Seq.FilterKeepsAll(shown, IsActive);
    Seq.FilterLength(shown, IsActive);
    ShownCount(s);
    ShownAll(s);
    |Seq.Filter(shown, IsActive)|
  }

  /** The shown list preserves the order of the items. */
  lemma ShownIsSubsequence(s: State)
    ensures Seq.SubsequenceOf(Shown(s), s.todos)
  {
    Seq.FilterIsSubsequence(s.todos, Passes(s.filter));
  }

  /** Under `All` every item is shown, in order. */
  lemma ShownAll(s: State)
    ensures s.filter == All ==> Shown(s) == s.todos
  {
    Seq.FilterKeepsAll(s.todos, Passes(s.filter));
  }

  /** The shown list is as long as the number of items passing the filter. */
  lemma ShownCount(s: State)
    ensures |Shown(s)| == Seq.Count(s.todos, Passes(s.filter))
    ensures s.filter == Active ==> |Shown(s)| == Seq.Count(s.todos, IsActive)
  {
    Seq.FilterLength(s.todos, Passes(s.filter));
    if s.filter == Active {
      Seq.CountSame(s.todos, Passes(Active), IsActive);
    }
  }

  /** The `Completed` and `Active` views split the items: their lengths add up to the
      whole list, and together they hold every item exactly once. */
  lemma CompletedAndActivePartition(ts: seq<Todo>)
    ensures |Shown(State(ts, Completed))| + |Shown(State(ts, Active))| == |ts|
    ensures multiset(Shown(State(ts, Completed))) + multiset(Shown(State(ts, Active))) == multiset(ts)
  {
    Seq.FilterLength(ts, Passes(Completed));
    Seq.FilterLength(ts, Passes(Active));
    Seq.CountComplement(ts, Passes(Completed), Passes(Active));
    Seq.FilterPartition(ts, Passes(Completed), Passes(Active));
  }

  /** Because the count runs over the shown list, the `Completed` view reports zero items
      left even when active items exist. */
  lemma ItemsLeftIgnoresHiddenActive(s: State)
    requires s.filter == Completed
    requires exists i :: 0 <= i < |s.todos| && !s.todos[i].completed
    ensures ItemsLeft(s) == 0 < Seq.Count(s.todos, IsActive)
  {
    var i :| 0 <= i < |s.todos| && !s.todos[i].completed;
    Seq.CountZero(s.todos, IsActive);
    assert s.todos[i] in s.todos;
  }

  /** On mount the widget starts from the initial state with the seed list in place:
      every seed item is shown, in order, and the count is that of the active seeds. */
  lemma MountShowsSeed(seed: seq<Todo>)
    ensures Shown(InitialState.(todos := seed)) == seed
    ensures ItemsLeft(InitialState.(todos := seed)) == Seq.Count(seed, IsActive)
  {
    ShownAll(InitialState.(todos := seed));
  }

  /** The walk-through of a short session: add, toggle, look at the active items,
      clear the completed ones, switch to the completed view. */
  lemma Session()
    ensures
      var a := Todo("A", false, "1");
      var b := Todo("B", false, "2");
      var s0 := InitialState.(todos := [a]);
      var s1 := Reduce(s0, AddTodoList(b));
      var s2 := Reduce(s1, ToggleTodoList(a));
      var active := Reduce(s2, SetFilter(Active));
      var s3 := Reduce(s2, ClearCompleted);
      var s4 := Reduce(s3, SetFilter(Completed));
      && s1.todos == [a, b]
      && s2.todos == [Toggled(a), b]
      && Shown(active) == [b]
      && ItemsLeft(active) == 1
      && s3.todos == [b]
      && Shown(s4) == []
  {
    var a := Todo("A", false, "1");
    var b := Todo("B", false, "2");
    var s0 := InitialState.(todos := [a]);
    assert s0 == State([a], All);
    var s1 := Reduce(s0, AddTodoList(b));
    assert s1.todos == [a, b];
    var s2 := Reduce(s1, ToggleTodoList(a));
    assert s2.todos == [Toggled(a), b] by {
      assert s2.todos[0] == Toggled(a) && s2.todos[1] == b;
    }
    assert s2.todos[1..] == [b] && [b][1..] == [];
    var active := Reduce(s2, SetFilter(Active));
    assert Shown(active) == [b];
    assert ItemsLeft(active) == 1 by {
      assert Seq.Filter([b], IsActive) == [b];
    }
    var s3 := Reduce(s2, ClearCompleted);
    assert s3.todos == [b];
    var s4 := Reduce(s3, SetFilter(Completed));
    assert Shown(s4) == [];
  }
}
