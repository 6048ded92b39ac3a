/** The todo list's state store: the item and state records, the five actions and
    the pure reducer that maps a state and an action to the next state. */
module TodoReducer {
  import Seq = Sequences

  /** One entry of the list: its text, whether it is done, and its identity. */
  datatype Todo = Todo(todo: string, completed: bool, id: string)

  /** Which items the list shows. */
  datatype Filter = All | Completed | Active

  /** The whole widget state: the items in display order and the active filter. */
  datatype State = State(todos: seq<Todo>, filter: Filter)

  /** The requests the view dispatches. Toggle carries a whole item, of which only the
      id is used; Add carries the ready-made item, its id already chosen by the caller. */
  datatype Action =
    | AddTodoList(payload: Todo)
    | ToggleTodoList(payload: Todo)
    | DeleteTodo(id: string)
    | ClearCompleted
    | SetFilter(filter: Filter)

  /** The state before the seed items are supplied: no items, every item shown. */
  const InitialState: State := State([], All)

  /** The item with its completion flag flipped. */
  function Toggled(t: Todo): Todo {
    t.(completed := !t.completed)
  }

  predicate IsActive(t: Todo) { !t.completed }

  predicate IsCompleted(t: Todo) { t.completed }

  function HasId(id: string): Todo -> bool { (t: Todo) => t.id == id }

  function IdOtherThan(id: string): Todo -> bool { (t: Todo) => t.id != id }

  /** The per-item step of Toggle: flip the matching item, keep any other. */
  function ToggleIfId(id: string): Todo -> Todo {
    (t: Todo) => if t.id == id then Toggled(t) else t
  }

  /** The reducer. Every action but SetFilter keeps the filter; SetFilter keeps the items. */
  function Reduce(state: State, action: Action): (r: State)
    ensures action.SetFilter? ==> r.todos == state.todos && r.filter == action.filter
    ensures !action.SetFilter? ==> r.filter == state.filter
    ensures action.AddTodoList? ==> |r.todos| == |state.todos| + 1
    ensures action.ToggleTodoList? ==> |r.todos| == |state.todos|
    ensures action.DeleteTodo? || action.ClearCompleted? ==> |r.todos| <= |state.todos|
  {
    match action
    case AddTodoList(t) => state.(todos := state.todos + [t])
    case ToggleTodoList(t) => state.(todos := Seq.Map(state.todos, ToggleIfId(t.id)))
    case DeleteTodo(id) => state.(todos := Seq.Filter(state.todos, IdOtherThan(id)))
    case ClearCompleted => state.(todos := Seq.Filter(state.todos, IsActive))
    case SetFilter(f) => state.(filter := f)
  }

  // ---------------------------------------------------------------- Add

  /** Add puts its payload last and leaves every earlier item where it was. */
  lemma AddAppends(s: State, t: Todo)
    ensures Reduce(s, AddTodoList(t)).todos[..|s.todos|] == s.todos
    ensures Reduce(s, AddTodoList(t)).todos[|s.todos|] == t
    ensures Reduce(s, AddTodoList(t)).filter == s.filter
  {
  }

  // ---------------------------------------------------------------- Toggle

  /** Toggle keeps length and order; a matching item flips its flag and keeps its text
      and id, any other item is unchanged. */
  lemma ToggleFlipsMatching(s: State, p: Todo, i: int)
    requires 0 <= i < |s.todos|
    ensures |Reduce(s, ToggleTodoList(p)).todos| == |s.todos|
    ensures Reduce(s, ToggleTodoList(p)).todos[i].id == s.todos[i].id
    ensures Reduce(s, ToggleTodoList(p)).todos[i].todo == s.todos[i].todo
    ensures Reduce(s, ToggleTodoList(p)).todos[i].completed == (s.todos[i].completed != (s.todos[i].id == p.id))
  {
  }

  /** Toggle's result equals the input state exactly when no item has the payload's id. */
  lemma ToggleNoopIff(s: State, p: Todo)
    ensures Reduce(s, ToggleTodoList(p)) == s <==> forall i :: 0 <= i < |s.todos| ==> s.todos[i].id != p.id
  {
  }

  /** Toggling the same id twice restores the state exactly. */
  lemma ToggleTwice(s: State, p: Todo)
    ensures Reduce(Reduce(s, ToggleTodoList(p)), ToggleTodoList(p)) == s
  {
  }

  // ---------------------------------------------------------------- Delete

  /** Delete keeps, in their order, exactly the items whose id differs: the result is a
      subsequence, holds every such item and none with that id, and is shorter by the
      number of items carrying the id. */
  lemma DeleteRemovesId(s: State, id: string)
    ensures Seq.SubsequenceOf(Reduce(s, DeleteTodo(id)).todos, s.todos)
    ensures forall i :: 0 <= i < |Reduce(s, DeleteTodo(id)).todos| ==> Reduce(s, DeleteTodo(id)).todos[i].id != id
    ensures forall i :: 0 <= i < |s.todos| && s.todos[i].id != id ==> s.todos[i] in Reduce(s, DeleteTodo(id)).todos
    ensures |Reduce(s, DeleteTodo(id)).todos| == |s.todos| - Seq.Count(s.todos, HasId(id))
  {
    Seq.FilterIsSubsequence(s.todos, IdOtherThan(id));
    Seq.FilterLength(s.todos, IdOtherThan(id));
    Seq.CountComplement(s.todos, HasId(id), IdOtherThan(id));
  }

  /** No subsequence of the items without the id is longer than Delete's result, and
      one as long is that result. */
  lemma DeleteIsLargest(s: State, id: string, u: seq<Todo>)
    requires Seq.SubsequenceOf(u, s.todos)
    requires forall i :: 0 <= i < |u| ==> u[i].id != id
    ensures |u| <= |Reduce(s, DeleteTodo(id)).todos|
    ensures |u| == |Reduce(s, DeleteTodo(id)).todos| ==> u == Reduce(s, DeleteTodo(id)).todos
  {
    Seq.FilterIsLargestSubsequence(s.todos, IdOtherThan(id), u);
  }

  /** Delete's result equals the input state exactly when no item has the id. */
  lemma DeleteNoopIff(s: State, id: string)
    ensures Reduce(s, DeleteTodo(id)) == s <==> forall i :: 0 <= i < |s.todos| ==> s.todos[i].id != id
  {
    Seq.FilterKeepsAll(s.todos, IdOtherThan(id));
  }

  /** Deleting the same id again changes nothing. */
  lemma DeleteIdempotent(s: State, id: string)
    ensures Reduce(Reduce(s, DeleteTodo(id)), DeleteTodo(id)) == Reduce(s, DeleteTodo(id))
  {
    Seq.FilterIdempotent(s.todos, IdOtherThan(id));
  }

  // ---------------------------------------------------------------- ClearCompleted

  /** ClearCompleted keeps, in their order, exactly the not-completed items: the result
      is a subsequence, holds every active item and no completed one, and is shorter by
      the number of completed items. */
  lemma ClearRemovesCompleted(s: State)
    ensures Seq.SubsequenceOf(Reduce(s, ClearCompleted).todos, s.todos)
    ensures forall i :: 0 <= i < |Reduce(s, ClearCompleted).todos| ==> !Reduce(s, ClearCompleted).todos[i].completed
    ensures forall i :: 0 <= i < |s.todos| && !s.todos[i].completed ==> s.todos[i] in Reduce(s, ClearCompleted).todos
    ensures |Reduce(s, ClearCompleted).todos| == |s.todos| - Seq.Count(s.todos, IsCompleted)
  {
    Seq.FilterIsSubsequence(s.todos, IsActive);
    Seq.FilterLength(s.todos, IsActive);
    Seq.CountComplement(s.todos, IsCompleted, IsActive);
  }

  /** No subsequence of active items is longer than ClearCompleted's result, and one as
      long is that result. */
  lemma ClearIsLargest(s: State, u: seq<Todo>)
    requires Seq.SubsequenceOf(u, s.todos)
    requires forall i :: 0 <= i < |u| ==> !u[i].completed
    ensures |u| <= |Reduce(s, ClearCompleted).todos|
    ensures |u| == |Reduce(s, ClearCompleted).todos| ==> u == Reduce(s, ClearCompleted).todos
  {
    Seq.FilterIsLargestSubsequence(s.todos, IsActive, u);
  }

  /** ClearCompleted's result equals the input state exactly when no item is completed. */
  lemma ClearNoopIff(s: State)
    ensures Reduce(s, ClearCompleted) == s <==> forall i :: 0 <= i < |s.todos| ==> !s.todos[i].completed
  {
    Seq.FilterKeepsAll(s.todos, IsActive);
  }

  /** Clearing twice is clearing once. */
  lemma ClearIdempotent(s: State)
    ensures Reduce(Reduce(s, ClearCompleted), ClearCompleted) == Reduce(s, ClearCompleted)
  {
    Seq.FilterIdempotent(s.todos, IsActive);
  }

  /** Clearing after an add clears the old items and keeps the new one only if it is active. */
  lemma ClearAfterAdd(s: State, t: Todo)
    ensures Reduce(Reduce(s, AddTodoList(t)), ClearCompleted).todos
            == Reduce(s, ClearCompleted).todos + (if t.completed then [] else [t])
  {
    Seq.FilterConcat(s.todos, [t], IsActive);
  }

  // ---------------------------------------------------------------- identity

  /** No two items share an id. The reducer does not enforce this; the view relies on
      `crypto.randomUUID()` for it, and nothing checks the seed list. */
  ghost predicate UniqueIds(ts: seq<Todo>) {
    forall i, j :: 0 <= i < j < |ts| ==> ts[i].id != ts[j].id
  }

  /** Dropping the first item keeps ids unique, and no later item shares the first one's id. */
  lemma UniqueIdsTail(ts: seq<Todo>)
    requires UniqueIds(ts) && ts != []
    ensures UniqueIds(ts[1..])
    ensures forall t :: t in ts[1..] ==> t.id != ts[0].id
  {
  }

  /** Putting an item with an unused id in front keeps ids unique. */
  lemma UniqueIdsCons(h: Todo, f: seq<Todo>)
    requires UniqueIds(f)
    requires forall t :: t in f ==> t.id != h.id
    ensures UniqueIds([h] + f)
  {
  }

  /** Filtering keeps ids unique. */
  lemma {:induction false} FilterKeepsUniqueIds(ts: seq<Todo>, p: Todo -> bool)
    requires UniqueIds(ts)
    ensures UniqueIds(Seq.Filter(ts, p))
  {
    if ts != [] {
      UniqueIdsTail(ts);
      FilterKeepsUniqueIds(ts[1..], p);
      if p(ts[0]) {
        UniqueIdsCons(ts[0], Seq.Filter(ts[1..], p));
      }
    }
  }

  /** Every action keeps ids unique, provided an added item's id is not already in use. */
  lemma ReducePreservesUniqueIds(s: State, a: Action)
    requires UniqueIds(s.todos)
    requires a.AddTodoList? ==> forall i :: 0 <= i < |s.todos| ==> s.todos[i].id != a.payload.id
    ensures UniqueIds(Reduce(s, a).todos)
  {
    match a
    case DeleteTodo(id) => FilterKeepsUniqueIds(s.todos, IdOtherThan(id));
    case ClearCompleted => FilterKeepsUniqueIds(s.todos, IsActive);
    case _ =>
  }

  /** With unique ids, at most one item carries a given id. */
  lemma {:induction false} UniqueIdsCountAtMostOne(ts: seq<Todo>, id: string)
    requires UniqueIds(ts)
    ensures Seq.Count(ts, HasId(id)) <= 1
    ensures Seq.Count(ts, HasId(id)) == 1 <==> exists i :: 0 <= i < |ts| && ts[i].id == id
  {
    if ts != [] {
      var tail := ts[1..];
      UniqueIdsTail(ts);
      UniqueIdsCountAtMostOne(tail, id);
      if ts[0].id == id {
        Seq.CountZero(tail, HasId(id));
      } else {
        if exists i :: 0 <= i < |ts| && ts[i].id == id {
          var i :| 0 <= i < |ts| && ts[i].id == id;
          assert tail[i - 1].id == id;
        }
        if exists i :: 0 <= i < |tail| && tail[i].id == id {
          var i :| 0 <= i < |tail| && tail[i].id == id;
          assert ts[i + 1].id == id;
        }
      }
    }
  }

  /** With unique ids, deleting a present id removes exactly one item, and deleting an
      absent one removes none. */
  lemma DeleteUniqueRemovesOne(s: State, id: string)
    requires UniqueIds(s.todos)
    ensures (exists i :: 0 <= i < |s.todos| && s.todos[i].id == id) ==> |Reduce(s, DeleteTodo(id)).todos| == |s.todos| - 1
    ensures (forall i :: 0 <= i < |s.todos| ==> s.todos[i].id != id) ==> |Reduce(s, DeleteTodo(id)).todos| == |s.todos|
  {
    DeleteRemovesId(s, id);
    UniqueIdsCountAtMostOne(s.todos, id);
  }
}
