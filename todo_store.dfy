/** The todo list kept by the App component: an ordered sequence of
    `{id, text, completed}` records, the seed list it starts from, and the
    add / toggle / delete operations and the "items left" count that the
    component derives from it. Every operation builds a new list; the
    component only ever replaces its state wholesale. */
module TodoStore {
  import opened Wrappers
  import opened JsString

  /** One todo record. `id` is the number the component compares with `===`
      (1, 2, 3 for the seed items, `Date.now()` for added ones). */
  datatype Todo = Todo(id: int, text: string, completed: bool)

  /** The component's two pieces of state: the list and the input field. */
  datatype AppState = AppState(todos: seq<Todo>, input: string)

  /** The result of loading at start-up: a list, or the exception that
      `JSON.parse` throws on a saved value it cannot parse. */
  datatype LoadOutcome = Loaded(todos: seq<Todo>) | ParseError

  // ---------------------------------------------------------------------
  // Predicates used to state the contracts

  predicate HasId(todos: seq<Todo>, id: int) {
    exists i | 0 <= i < |todos| :: todos[i].id == id
  }

  /** No two items share an id (ids are meant to be distinct; nothing enforces it). */
  predicate UniqueIds(todos: seq<Todo>) {
    forall i, j | 0 <= i < j < |todos| :: todos[i].id != todos[j].id
  }

  /** Every item's text is non-empty and has no white space at either end,
      as `addTodo` makes it. */
  predicate TrimmedTexts(todos: seq<Todo>) {
    forall t | t in todos :: t.text != [] && IsTrimmed(t.text)
  }

  // ---------------------------------------------------------------------
  // Loading

  /** The three items used when nothing is saved. */
  function SeedTodos(): (r: seq<Todo>)
    ensures |r| == 3
    ensures forall i | 0 <= i < |r| :: r[i].id == i + 1 && !r[i].completed
  {
    [ Todo(1, "Learn React basics", false),
      Todo(2, "Build a todo app", false),
      Todo(3, "Master React hooks", false) ]
  }

  /** `loadTodos`: `saved` is what `localStorage.getItem('todos')` returned
      (None for null) and `parse` stands for `JSON.parse`, None meaning that
      it throws. A falsy saved value (null or "") gives the seed list. */
  function LoadTodos(saved: Option<string>, parse: string -> Option<seq<Todo>>): (r: LoadOutcome)
    ensures saved == None || saved == Some("") ==> r == Loaded(SeedTodos())
    ensures r == ParseError <==> saved.Some? && saved.value != "" && parse(saved.value) == None
    ensures r.Loaded? && saved.Some? && saved.value != "" ==> parse(saved.value) == Some(r.todos)
  {
    if saved == None || saved.value == "" then Loaded(SeedTodos())
    else
      match parse(saved.value)
      case Some(todos) => Loaded(todos)
      case None => ParseError
  }

  // ---------------------------------------------------------------------
  // Operations

  /** `addTodo`: if the trimmed input is not empty, append a new incomplete
      item carrying it and clear the input; otherwise change nothing.
      `freshId` stands for `Date.now()`. */
  function AddTodo(s: AppState, freshId: int): (r: AppState)
    ensures Trim(s.input) == [] ==> r == s
    ensures Trim(s.input) != [] ==>
      && r.input == []
      && |r.todos| == |s.todos| + 1
      && r.todos[..|s.todos|] == s.todos
      && r.todos[|s.todos|] == Todo(freshId, Trim(s.input), false)
  {
    var text := Trim(s.input);
    if text != [] then AppState(s.todos + [Todo(freshId, text, false)], "") else s
  }

  /** `toggleTodo`: flip `completed` on every item whose id is `id`. */
  function ToggleTodo(todos: seq<Todo>, id: int): (r: seq<Todo>)
    ensures |r| == |todos|
  {
    if todos == [] then []
    else
      var t := todos[0];
      [if t.id == id then t.(completed := !t.completed) else t] + ToggleTodo(todos[1..], id)
  }

  /** `deleteTodo`: keep the items whose id is not `id`, in order. */
  function DeleteTodo(todos: seq<Todo>, id: int): (r: seq<Todo>)
    ensures |r| <= |todos|
  {
    if todos == [] then []
    else (if todos[0].id != id then [todos[0]] else []) + DeleteTodo(todos[1..], id)
  }

  /** `todos.filter(todo => !todo.completed)` */
  function ActiveTodos(todos: seq<Todo>): (r: seq<Todo>)
    ensures |r| <= |todos|
  {
    if todos == [] then []
    else (if !todos[0].completed then [todos[0]] else []) + ActiveTodos(todos[1..])
  }

  /** `remainingTodos`, the "items left" count. */
  function RemainingCount(todos: seq<Todo>): (n: nat)
    ensures n <= |todos|
  {
    |ActiveTodos(todos)|
  }

  /** The number of completed items, counted independently of the filter. */
  function CompletedCount(todos: seq<Todo>): nat {
    if todos == [] then 0
    else (if todos[0].completed then 1 else 0) + CompletedCount(todos[1..])
  }

  // ---------------------------------------------------------------------
  // Loading: properties

  /** With nothing saved (or an empty string saved), loading yields exactly
      the three seed items: ids 1, 2, 3, their fixed texts, none completed. */
  lemma LoadWithoutSaved(parse: string -> Option<seq<Todo>>)
    ensures LoadTodos(None, parse) == LoadTodos(Some(""), parse) == Loaded(SeedTodos())
    ensures LoadTodos(None, parse).todos == [ Todo(1, "Learn React basics", false),
                                            Todo(2, "Build a todo app", false),
                                            Todo(3, "Master React hooks", false) ]
    ensures RemainingCount(LoadTodos(None, parse).todos) == 3
  {
  }

  /** The seed list has distinct ids and non-empty trimmed texts. */
  lemma SeedWellFormed()
    ensures UniqueIds(SeedTodos()) && TrimmedTexts(SeedTodos())
  {
    var seed := SeedTodos();
    forall t | t in seed ensures t.text != [] && IsTrimmed(t.text) {
      assert t == seed[0] || t == seed[1] || t == seed[2];
    }
  }

  // ---------------------------------------------------------------------
  // Adding: properties

  /** The add is a no-op exactly when the input is all white space (the
      input field then keeps its value); otherwise the input is cleared. */
  lemma AddTodoBlankIff(s: AppState, freshId: int)
    ensures AddTodo(s, freshId) == s <==> AllWhiteSpace(s.input)
    ensures !AllWhiteSpace(s.input) ==> AddTodo(s, freshId).input == []
  {
  }

  /** Adding `" a "` appends an incomplete item with text `"a"`; adding
      `"   "` changes nothing. */
  lemma AddTodoExamples(todos: seq<Todo>, freshId: int)
    ensures AddTodo(AppState(todos, " a "), freshId) == AppState(todos + [Todo(freshId, "a", false)], "")
    ensures AddTodo(AppState(todos, "   "), freshId) == AppState(todos, "   ")
  {
    TrimPadded();
    TrimBlank();
  }

  /** A successful add keeps every item's text non-empty and trimmed. */
  lemma AddTodoKeepsTrimmedTexts(s: AppState, freshId: int)
    requires TrimmedTexts(s.todos)
    ensures TrimmedTexts(AddTodo(s, freshId).todos)
  {
    TrimIsTrimmed(s.input);
  }

  /** Adding with an id no item has keeps the ids distinct. */
  lemma AddTodoKeepsUniqueIds(s: AppState, freshId: int)
    requires UniqueIds(s.todos) && !HasId(s.todos, freshId)
    ensures UniqueIds(AddTodo(s, freshId).todos)
  {
  }

  /** A successful add raises the "items left" count by one. */
  lemma AddTodoRemaining(s: AppState, freshId: int)
    ensures RemainingCount(AddTodo(s, freshId).todos)
      == RemainingCount(s.todos) + (if Trim(s.input) == [] then 0 else 1)
  {
    if Trim(s.input) != [] {
      ActiveConcat(s.todos, [Todo(freshId, Trim(s.input), false)]);
    }
  }

  // ---------------------------------------------------------------------
  // Toggling: properties

  /** Toggling keeps the length, the order, every id and every text, and
      negates `completed` exactly on the items whose id is `id`. */
  lemma {:induction false} ToggleEffect(todos: seq<Todo>, id: int)
    ensures forall i | 0 <= i < |todos| ::
      && ToggleTodo(todos, id)[i].id == todos[i].id
      && ToggleTodo(todos, id)[i].text == todos[i].text
      && (ToggleTodo(todos, id)[i].completed <==> (todos[i].completed != (todos[i].id == id)))
  {
    if todos != [] {
      ToggleEffect(todos[1..], id);
      var r := ToggleTodo(todos, id);
      forall i | 1 <= i < |todos| ensures r[i] == ToggleTodo(todos[1..], id)[i - 1] && todos[i] == todos[1..][i - 1] {
      }
    }
  }

  /** Toggling an id that no item has changes nothing. */
  lemma {:induction false} ToggleAbsent(todos: seq<Todo>, id: int)
    requires !HasId(todos, id)
    ensures ToggleTodo(todos, id) == todos
  {
    if todos != [] {
      assert todos[0].id != id;
      assert !HasId(todos[1..], id) by {
        forall i | 0 <= i < |todos[1..]| ensures todos[1..][i].id != id {
          assert todos[1..][i] == todos[i + 1];
        }
      }
      ToggleAbsent(todos[1..], id);
    }
  }

  /** Toggling the same id twice gives back the original list. */
  lemma {:induction false} ToggleTwice(todos: seq<Todo>, id: int)
    ensures ToggleTodo(ToggleTodo(todos, id), id) == todos
  {
    if todos != [] {
      ToggleTwice(todos[1..], id);
      var once := ToggleTodo(todos, id);
      assert once[1..] == ToggleTodo(todos[1..], id);
    }
  }

  /** With distinct ids, toggling the item at `k` moves the "items left"
      count by one: up if it was completed, down if it was not. */
  lemma ToggleRemaining(todos: seq<Todo>, id: int, k: nat)
    requires UniqueIds(todos) && k < |todos| && todos[k].id == id
    ensures RemainingCount(ToggleTodo(todos, id))
      == RemainingCount(todos) + (if todos[k].completed then 1 else -1)
  {
    OnlyItemWithId(todos, k);
    assert todos == todos[..k] + ([todos[k]] + todos[k + 1..]);
    ToggleOnly(todos[..k], todos[k], todos[k + 1..], id);
  }

  /** Toggling the id of `t`, when only `t` has it, flips `t` alone. */
  lemma ToggleOnly(before: seq<Todo>, t: Todo, after: seq<Todo>, id: int)
    requires !HasId(before, id) && !HasId(after, id) && t.id == id
    ensures ToggleTodo(before + ([t] + after), id)
      == before + ([t.(completed := !t.completed)] + after)
    ensures RemainingCount(ToggleTodo(before + ([t] + after), id))
      == RemainingCount(before + ([t] + after)) + (if t.completed then 1 else -1)
  {
    var flipped := t.(completed := !t.completed);
    calc {
      ToggleTodo(before + ([t] + after), id);
      { ToggleConcat(before, [t] + after, id); ToggleConcat([t], after, id); }
      ToggleTodo(before, id) + (ToggleTodo([t], id) + ToggleTodo(after, id));
      { ToggleAbsent(before, id); ToggleAbsent(after, id); assert [t][1..] == []; }
      before + ([flipped] + after);
    }
    RemainingConcat(before, [flipped] + after);
    RemainingConcat([flipped], after);
    RemainingConcat(before, [t] + after);
    RemainingConcat([t], after);
    assert [t][1..] == [] && [flipped][1..] == [];
  }

  /** Toggling works item by item: the result for `a + b` is the result for
      `a` followed by the result for `b`. */
  lemma {:induction false} ToggleConcat(a: seq<Todo>, b: seq<Todo>, id: int)
    ensures ToggleTodo(a + b, id) == ToggleTodo(a, id) + ToggleTodo(b, id)
  {
    if a != [] {
      assert (a + b)[1..] == a[1..] + b;
      ToggleConcat(a[1..], b, id);
    } else {
      assert a + b == b;
    }
  }

  /** Toggling keeps the ids, hence distinct ids stay distinct, and keeps
      every text. */
  lemma ToggleKeepsInvariants(todos: seq<Todo>, id: int)
    ensures UniqueIds(todos) ==> UniqueIds(ToggleTodo(todos, id))
    ensures TrimmedTexts(todos) ==> TrimmedTexts(ToggleTodo(todos, id))
  {
    var r := ToggleTodo(todos, id);
    ToggleEffect(todos, id);
    forall t | t in r ensures exists u | u in todos :: u.text == t.text {
      var i :| 0 <= i < |r| && r[i] == t;
      assert todos[i] in todos;
    }
  }

  // ---------------------------------------------------------------------
  // Deleting: properties

  /** An item survives the delete exactly when its id differs. */
  lemma {:induction false} DeleteMembers(todos: seq<Todo>, id: int)
    ensures forall t :: t in DeleteTodo(todos, id) <==> t in todos && t.id != id
  {
    if todos != [] {
      DeleteMembers(todos[1..], id);
      assert forall t :: t in todos <==> t == todos[0] || t in todos[1..];
    }
  }

  /** Deleting an id that no item has changes nothing. */
  lemma {:induction false} DeleteAbsent(todos: seq<Todo>, id: int)
    requires !HasId(todos, id)
    ensures DeleteTodo(todos, id) == todos
  {
    if todos != [] {
      assert todos[0].id != id;
      assert !HasId(todos[1..], id) by {
        forall i | 0 <= i < |todos[1..]| ensures todos[1..][i].id != id {
          assert todos[1..][i] == todos[i + 1];
        }
      }
      DeleteAbsent(todos[1..], id);
    }
  }

  /** Deleting works item by item, keeping order: the result for `a + b` is
      the result for `a` followed by the result for `b`. */
  lemma {:induction false} DeleteConcat(a: seq<Todo>, b: seq<Todo>, id: int)
    ensures DeleteTodo(a + b, id) == DeleteTodo(a, id) + DeleteTodo(b, id)
  {
    if a != [] {
      assert (a + b)[1..] == a[1..] + b;
      DeleteConcat(a[1..], b, id);
    } else {
      assert a + b == b;
    }
  }

  /** With distinct ids, deleting the id of the item at `k` removes exactly
      that item and keeps the others in their order. */
  lemma DeleteAt(todos: seq<Todo>, id: int, k: nat)
    requires UniqueIds(todos) && k < |todos| && todos[k].id == id
    ensures DeleteTodo(todos, id) == todos[..k] + todos[k + 1..]
    ensures |DeleteTodo(todos, id)| == |todos| - 1
  {
    OnlyItemWithId(todos, k);
    assert todos == todos[..k] + ([todos[k]] + todos[k + 1..]);
    DeleteOnly(todos[..k], todos[k], todos[k + 1..], id);
  }

  /** Deleting the id of `t`, when only `t` has it, gives the items around `t`. */
  lemma DeleteOnly(before: seq<Todo>, t: Todo, after: seq<Todo>, id: int)
    requires !HasId(before, id) && !HasId(after, id) && t.id == id
    ensures DeleteTodo(before + ([t] + after), id) == before + after
  {
    calc {
      DeleteTodo(before + ([t] + after), id);
      { DeleteConcat(before, [t] + after, id); }
      DeleteTodo(before, id) + DeleteTodo([t] + after, id);
      { DeleteConcat([t], after, id); }
      DeleteTodo(before, id) + (DeleteTodo([t], id) + DeleteTodo(after, id));
      { DeleteSingle(t, id); }
      DeleteTodo(before, id) + ([] + DeleteTodo(after, id));
      { DeleteAbsent(before, id); DeleteAbsent(after, id); }
      before + ([] + after);
    }
    assert before + ([] + after) == before + after;
  }

  lemma DeleteSingle(t: Todo, id: int)
    ensures DeleteTodo([t], id) == if t.id == id then [] else [t]
  {
  }

  /** With distinct ids, the item at `k` is the only one with its id. */
  lemma OnlyItemWithId(todos: seq<Todo>, k: nat)
    requires UniqueIds(todos) && k < |todos|
    ensures !HasId(todos[..k], todos[k].id) && !HasId(todos[k + 1..], todos[k].id)
  {
  }

  /** Distinct ids, one item at a time: the first id does not recur and the
      rest has distinct ids. */
  lemma UniqueIdsCons(todos: seq<Todo>)
    requires todos != []
    ensures UniqueIds(todos) <==> !HasId(todos[1..], todos[0].id) && UniqueIds(todos[1..])
  {
  }

  /** Deleting leaves no item with that id, so deleting again changes
      nothing. */
  lemma DeleteIdempotent(todos: seq<Todo>, id: int)
    ensures !HasId(DeleteTodo(todos, id), id)
    ensures DeleteTodo(DeleteTodo(todos, id), id) == DeleteTodo(todos, id)
  {
    var r := DeleteTodo(todos, id);
    DeleteMembers(todos, id);
    assert !HasId(r, id) by {
      forall i | 0 <= i < |r| ensures r[i].id != id {
        assert r[i] in r;
      }
    }
    DeleteAbsent(r, id);
  }

  /** Deleting keeps distinct ids distinct. */
  lemma {:induction false} DeleteKeepsUniqueIds(todos: seq<Todo>, id: int)
    requires UniqueIds(todos)
    ensures UniqueIds(DeleteTodo(todos, id))
  {
    if todos != [] {
      var rest := todos[1..];
      UniqueIdsCons(todos);
      DeleteKeepsUniqueIds(rest, id);
      var tail := DeleteTodo(rest, id);
      DeleteMembers(rest, id);
      if todos[0].id != id {
        assert !HasId(tail, todos[0].id) by {
          forall i | 0 <= i < |tail| ensures tail[i].id != todos[0].id {
            assert tail[i] in rest;
          }
        }
        var r := DeleteTodo(todos, id);
        assert r[1..] == tail;
        UniqueIdsCons(r);
      }
    }
  }

  /** Deleting keeps texts non-empty and trimmed. */
  lemma DeleteKeepsTrimmedTexts(todos: seq<Todo>, id: int)
    requires TrimmedTexts(todos)
    ensures TrimmedTexts(DeleteTodo(todos, id))
  {
  }

  // ---------------------------------------------------------------------
  // The "items left" count: properties

  /** The filter keeps exactly the incomplete items. */
  lemma {:induction false} ActiveMembers(todos: seq<Todo>)
    ensures forall t :: t in ActiveTodos(todos) <==> t in todos && !t.completed
  {
    if todos != [] {
      ActiveMembers(todos[1..]);
      assert forall t :: t in todos <==> t == todos[0] || t in todos[1..];
    }
  }

  /** The filter of incomplete items works item by item. */
  lemma {:induction false} ActiveConcat(a: seq<Todo>, b: seq<Todo>)
    ensures ActiveTodos(a + b) == ActiveTodos(a) + ActiveTodos(b)
  {
    if a != [] {
      assert (a + b)[1..] == a[1..] + b;
      ActiveConcat(a[1..], b);
    } else {
      assert a + b == b;
    }
  }

  /** The count of a concatenation is the sum of the counts. */
  lemma RemainingConcat(a: seq<Todo>, b: seq<Todo>)
    ensures RemainingCount(a + b) == RemainingCount(a) + RemainingCount(b)
  {
    ActiveConcat(a, b);
  }

  /** Items left = length minus completed items. */
  lemma {:induction false} RemainingPlusCompleted(todos: seq<Todo>)
    ensures RemainingCount(todos) + CompletedCount(todos) == |todos|
  {
    if todos != [] {
      RemainingPlusCompleted(todos[1..]);
    }
  }

  /** Every item is left exactly when none is completed, and none is left
      exactly when all are completed. */
  lemma RemainingExtremes(todos: seq<Todo>)
    ensures RemainingCount(todos) == |todos| <==> forall t | t in todos :: !t.completed
    ensures RemainingCount(todos) == 0 <==> forall t | t in todos :: t.completed
  {
    RemainingPlusCompleted(todos);
    CompletedCountBounds(todos);
  }

  /** No completed items is a count of 0, all completed the full length. */
  lemma {:induction false} CompletedCountBounds(todos: seq<Todo>)
    ensures CompletedCount(todos) == 0 <==> forall t | t in todos :: !t.completed
    ensures CompletedCount(todos) == |todos| <==> forall t | t in todos :: t.completed
  {
    if todos != [] {
      CompletedCountBounds(todos[1..]);
      assert forall t | t in todos :: t == todos[0] || t in todos[1..];
      assert CompletedCount(todos[1..]) <= |todos[1..]| by {
        RemainingPlusCompleted(todos[1..]);
      }
    }
  }

  /** Deleting never raises the "items left" count. */
  lemma {:induction false} DeleteRemaining(todos: seq<Todo>, id: int)
    ensures RemainingCount(DeleteTodo(todos, id)) <= RemainingCount(todos)
  {
    if todos != [] {
      var head := if todos[0].id != id then [todos[0]] else [];
      ActiveConcat(head, DeleteTodo(todos[1..], id));
      DeleteRemaining(todos[1..], id);
    }
  }

  // ---------------------------------------------------------------------
  // Scenarios

  /** Seed list, toggle item 2: two items left and item 2 completed. */
  lemma SeedToggleTwo()
    ensures ToggleTodo(SeedTodos(), 2)[1].completed
    ensures RemainingCount(ToggleTodo(SeedTodos(), 2)) == 2
  {
  }

  /** Seed list, delete item 1: items 2 and 3 remain, in that order. */
  lemma SeedDeleteOne()
    ensures DeleteTodo(SeedTodos(), 1) == [SeedTodos()[1], SeedTodos()[2]]
  {
  }
}
