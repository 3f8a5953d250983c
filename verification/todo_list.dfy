/** The todo page (app/page.tsx): the list of todos held in the `todos`
    state, the three handlers that replace it, and the completed count. */
module TodoList {
  import opened JsString
  import AddTodo

  /** One entry of the list. `id` comes from `crypto.randomUUID()` and
      `createdAt` from `Date.now()` (milliseconds), both supplied by the caller. */
  datatype Todo = Todo(id: string, text: string, completed: bool, createdAt: int)

  /** Some entry of `todos` carries `id`. */
  predicate HasId(todos: seq<Todo>, id: string) {
    exists i :: 0 <= i < |todos| && todos[i].id == id
  }

  /** No two entries share an id (what `key={todo.id}` relies on). */
  predicate DistinctIds(todos: seq<Todo>) {
    forall i, j :: 0 <= i < j < |todos| ==> todos[i].id != todos[j].id
  }

  /** How many entries carry `id`. */
  function Occurrences(todos: seq<Todo>, id: string): (n: nat)
    ensures n <= |todos|
    ensures n == 0 <==> !HasId(todos, id)
  {
    if todos == [] then 0
    else (if todos[0].id == id then 1 else 0) + Occurrences(todos[1..], id)
  }

  /** `s` is `t` with some entries left out, the rest in their order. */
  predicate SubsequenceOf(s: seq<Todo>, t: seq<Todo>)
    decreases |t|
  {
    s == [] ||
    (t != [] && ((s[0] == t[0] && SubsequenceOf(s[1..], t[1..])) || SubsequenceOf(s, t[1..])))
  }

  // ---------------------------------------------------------------------------
  // The list transforms the handlers apply.

  /** `[newTodo, ...todos]`: a fresh, open entry goes in front of the list. */
  function Added(todos: seq<Todo>, id: string, text: string, createdAt: int): (r: seq<Todo>)
    ensures |r| == |todos| + 1
    ensures r[0].id == id && r[0].text == text && !r[0].completed && r[0].createdAt == createdAt
    ensures r[1..] == todos
  {
    [Todo(id, text, false, createdAt)] + todos
  }

  /** `todos.map(t => t.id === id ? { ...t, completed: !t.completed } : t)`:
      entries with the id have `completed` flipped; nothing else changes. */
  function Toggled(todos: seq<Todo>, id: string): (r: seq<Todo>)
    ensures |r| == |todos|
    ensures forall i :: 0 <= i < |todos| ==>
      r[i].id == todos[i].id && r[i].text == todos[i].text && r[i].createdAt == todos[i].createdAt &&
      r[i].completed == (if todos[i].id == id then !todos[i].completed else todos[i].completed)
    ensures forall i :: 0 <= i < |todos| && todos[i].id != id ==> r[i] == todos[i]
  {
    if todos == [] then []
    else
      var t := todos[0];
      [if t.id == id then t.(completed := !t.completed) else t] + Toggled(todos[1..], id)
  }

  /** `todos.filter(t => t.id !== id)`: exactly the entries with another id,
      in their original order. */
  function Without(todos: seq<Todo>, id: string): (r: seq<Todo>)
    ensures forall t :: t in r <==> t in todos && t.id != id
    ensures |r| == |todos| - Occurrences(todos, id)
    ensures SubsequenceOf(r, todos)
  {
    if todos == [] then []
    else if todos[0].id == id then Without(todos[1..], id)
    else [todos[0]] + Without(todos[1..], id)
  }

  /** `todos.filter(t => t.completed).length`. */
  function CompletedCount(todos: seq<Todo>): (n: nat)
    ensures n <= |todos|
    ensures n == 0 <==> forall i :: 0 <= i < |todos| ==> !todos[i].completed
    ensures n == |todos| <==> forall i :: 0 <= i < |todos| ==> todos[i].completed
  {
    if todos == [] then 0
    else (if todos[0].completed then 1 else 0) + CompletedCount(todos[1..])
  }

  // ---------------------------------------------------------------------------
  // Adding.

  /** Adding keeps ids distinct exactly when the new id is fresh. */
  lemma AddedDistinctIff(todos: seq<Todo>, id: string, text: string, createdAt: int)
    ensures DistinctIds(Added(todos, id, text, createdAt)) <==> DistinctIds(todos) && !HasId(todos, id)
  {
    var r := Added(todos, id, text, createdAt);
    if DistinctIds(r) {
      forall i, j | 0 <= i < j < |todos| ensures todos[i].id != todos[j].id {
        assert r[i + 1] == todos[i] && r[j + 1] == todos[j];
      }
    }
    if HasId(todos, id) {
      var k :| 0 <= k < |todos| && todos[k].id == id;
      assert r[0].id == r[k + 1].id;
    }
    if DistinctIds(todos) && !HasId(todos, id) {
      forall i, j | 0 <= i < j < |r| ensures r[i].id != r[j].id {
        assert r[j] == todos[j - 1];
        if i > 0 { assert r[i] == todos[i - 1]; }
      }
    }
  }

  /** A new entry is open, so adding leaves the completed count alone. */
  lemma AddedCompletedCount(todos: seq<Todo>, id: string, text: string, createdAt: int)
    ensures CompletedCount(Added(todos, id, text, createdAt)) == CompletedCount(todos)
  {
    assert Added(todos, id, text, createdAt)[1..] == todos;
  }

  // ---------------------------------------------------------------------------
  // Toggling.

  /** Toggling the same id twice restores the list. */
  lemma ToggledTwice(todos: seq<Todo>, id: string)
    ensures Toggled(Toggled(todos, id), id) == todos
  {
    var r := Toggled(Toggled(todos, id), id);
    assert forall i :: 0 <= i < |todos| ==> r[i] == todos[i];
  }

  /** Toggling leaves the list unchanged exactly when no entry has the id. */
  lemma ToggledUnchangedIff(todos: seq<Todo>, id: string)
    ensures Toggled(todos, id) == todos <==> !HasId(todos, id)
  {
    var r := Toggled(todos, id);
    if !HasId(todos, id) {
      assert forall i :: 0 <= i < |todos| ==> r[i] == todos[i];
    } else {
      var k :| 0 <= k < |todos| && todos[k].id == id;
      assert r[k] != todos[k];
    }
  }

  /** Toggling keeps ids distinct. */
  lemma ToggledKeepsDistinct(todos: seq<Todo>, id: string)
    requires DistinctIds(todos)
    ensures DistinctIds(Toggled(todos, id))
  {
    var r := Toggled(todos, id);
    forall i, j | 0 <= i < j < |r| ensures r[i].id != r[j].id {
      assert r[i].id == todos[i].id && r[j].id == todos[j].id;
    }
  }

  /** Toggling an id held by exactly one entry (ids distinct) moves the
      completed count by one: down if that entry was done, up otherwise. */
  lemma {:induction false} ToggledCompletedCount(todos: seq<Todo>, id: string, k: nat)
    requires DistinctIds(todos)
    requires k < |todos| && todos[k].id == id
    ensures CompletedCount(Toggled(todos, id)) == CompletedCount(todos) + (if todos[k].completed then -1 else 1)
    decreases |todos|
  {
    var rest := todos[1..];
    assert DistinctIds(rest) by {
      forall i, j | 0 <= i < j < |rest| ensures rest[i].id != rest[j].id {
        assert rest[i] == todos[i + 1] && rest[j] == todos[j + 1];
      }
    }
    assert Toggled(todos, id)[1..] == Toggled(rest, id);
    if k == 0 {
      assert !HasId(rest, id) by {
        forall i | 0 <= i < |rest| ensures rest[i].id != id {
          assert rest[i] == todos[i + 1];
        }
      }
      ToggledUnchangedIff(rest, id);
    } else {
      assert todos[0].id != id;
      assert rest[k - 1] == todos[k];
      ToggledCompletedCount(rest, id, k - 1);
    }
  }

  // ---------------------------------------------------------------------------
  // Deleting.

  /** Any subsequence of `todos` that avoids `id` is at most as long as the
      entries with another id. */
  lemma {:induction false} AvoidingSubsequenceBound(s: seq<Todo>, todos: seq<Todo>, id: string)
    requires SubsequenceOf(s, todos)
    requires forall t :: t in s ==> t.id != id
    ensures |s| <= |todos| - Occurrences(todos, id)
    decreases |todos|
  {
    if s != [] {
      if s[0] == todos[0] && SubsequenceOf(s[1..], todos[1..]) {
        AvoidingSubsequenceBound(s[1..], todos[1..], id);
      } else {
        AvoidingSubsequenceBound(s, todos[1..], id);
      }
    }
  }

  /** Without's contract determines its result: the only subsequence of
      `todos` that avoids `id` and keeps every other entry is Without. */
  lemma {:induction false} WithoutUnique(todos: seq<Todo>, id: string, s: seq<Todo>)
    requires SubsequenceOf(s, todos)
    requires forall t :: t in s ==> t.id != id
    requires |s| == |todos| - Occurrences(todos, id)
    ensures s == Without(todos, id)
    decreases |todos|
  {
    if todos == [] {
    } else if todos[0].id == id {
      assert s == [] || s[0] != todos[0] by {
        if s != [] { assert s[0] in s; }
      }
      WithoutUnique(todos[1..], id, s);
    } else if s[0] == todos[0] && SubsequenceOf(s[1..], todos[1..]) {
      WithoutUnique(todos[1..], id, s[1..]);
    } else {
      AvoidingSubsequenceBound(s, todos[1..], id);
      assert false;
    }
  }

  /** Deleting an id leaves the list unchanged exactly when no entry has it. */
  lemma {:induction false} WithoutUnchangedIff(todos: seq<Todo>, id: string)
    ensures Without(todos, id) == todos <==> !HasId(todos, id)
  {
    if HasId(todos, id) {
      var k :| 0 <= k < |todos| && todos[k].id == id;
      assert todos[k] in todos && todos[k] !in Without(todos, id);
    } else {
      assert Occurrences(todos, id) == 0;
      WithoutUnique(todos, id, todos) by {
        SubsequenceOfSelf(todos);
      }
    }
  }

  /** Every list is a subsequence of itself. */
  lemma {:induction false} SubsequenceOfSelf(todos: seq<Todo>)
    ensures SubsequenceOf(todos, todos)
    decreases |todos|
  {
    if todos != [] {
      SubsequenceOfSelf(todos[1..]);
    }
  }

  /** Deleting the same id twice is the same as deleting it once. */
  lemma WithoutIdempotent(todos: seq<Todo>, id: string)
    ensures Without(Without(todos, id), id) == Without(todos, id)
  {
    var r := Without(todos, id);
    assert !HasId(r, id) by {
      forall i | 0 <= i < |r| ensures r[i].id != id {
        assert r[i] in r;
      }
    }
    WithoutUnchangedIff(r, id);
  }

  /** Deleting keeps ids distinct. */
  lemma {:induction false} WithoutKeepsDistinct(todos: seq<Todo>, id: string)
    requires DistinctIds(todos)
    ensures DistinctIds(Without(todos, id))
    decreases |todos|
  {
    if todos != [] {
      var rest := todos[1..];
      assert DistinctIds(rest) by {
        forall i, j | 0 <= i < j < |rest| ensures rest[i].id != rest[j].id {
          assert rest[i] == todos[i + 1] && rest[j] == todos[j + 1];
        }
      }
      WithoutKeepsDistinct(rest, id);
      if todos[0].id != id {
        var w := Without(rest, id);
        var r := Without(todos, id);
        assert r == [todos[0]] + w;
        forall i, j | 0 <= i < j < |r| ensures r[i].id != r[j].id {
          if i == 0 {
            assert r[j] == w[j - 1] && w[j - 1] in rest;
            var m :| 0 <= m < |rest| && rest[m] == w[j - 1];
            assert rest[m] == todos[m + 1];
          } else {
            assert r[i] == w[i - 1] && r[j] == w[j - 1];
          }
        }
      }
    }
  }

  /** Deleting never raises the completed count. */
  lemma {:induction false} WithoutCompletedCount(todos: seq<Todo>, id: string)
    ensures CompletedCount(Without(todos, id)) <= CompletedCount(todos)
    decreases |todos|
  {
    if todos != [] {
      WithoutCompletedCount(todos[1..], id);
      if todos[0].id != id {
        assert (Without(todos, id))[1..] == Without(todos[1..], id);
      }
    }
  }

  // ---------------------------------------------------------------------------
  // The page component.

  /** The `Home` component's `todos` state; each handler replaces it. */
  class Home {
    var todos: seq<Todo>

    /** `useState<Todo[]>([])`. */
    constructor ()
      ensures todos == []
    {
      todos := [];
    }

    /** `addTodo(text)`, with the id and the timestamp passed in. */
    method AddTodo(text: string, id: string, createdAt: int)
      modifies this
      ensures todos == Added(old(todos), id, text, createdAt)
      ensures DistinctIds(todos) <==> DistinctIds(old(todos)) && !HasId(old(todos), id)
      ensures CompletedCount(todos) == CompletedCount(old(todos))
    {
      AddedDistinctIff(todos, id, text, createdAt);
      AddedCompletedCount(todos, id, text, createdAt);
      todos := Added(todos, id, text, createdAt);
    }

    /** `toggleTodo(id)`. */
    method ToggleTodo(id: string)
      modifies this
      ensures todos == Toggled(old(todos), id)
      ensures DistinctIds(old(todos)) ==> DistinctIds(todos)
      ensures todos == old(todos) <==> !HasId(old(todos), id)
    {
      if DistinctIds(todos) {
        ToggledKeepsDistinct(todos, id);
      }
      ToggledUnchangedIff(todos, id);
      todos := Toggled(todos, id);
    }

    /** `deleteTodo(id)`. */
    method DeleteTodo(id: string)
      modifies this
      ensures todos == Without(old(todos), id)
      ensures !HasId(todos, id)
      ensures DistinctIds(old(todos)) ==> DistinctIds(todos)
      ensures CompletedCount(todos) <= CompletedCount(old(todos))
    {
      if DistinctIds(todos) {
        WithoutKeepsDistinct(todos, id);
      }
      WithoutCompletedCount(todos, id);
      todos := Without(todos, id);
      assert forall i :: 0 <= i < |todos| ==> todos[i] in todos;
    }

    /** `<AddTodo onAdd={addTodo} />`: submitting the form adds the trimmed
        text as a new entry, or does nothing when the field is blank. */
    method SubmitForm(form: AddTodo.Form, id: string, createdAt: int)
      modifies this, form
      ensures Blank(old(form.text)) ==>
        todos == old(todos) && form.text == old(form.text) && form.added == old(form.added)
      ensures !Blank(old(form.text)) ==>
        todos == Added(old(todos), id, Trim(old(form.text)), createdAt) &&
        form.text == "" && form.added == old(form.added) + [Trim(old(form.text))]
    {
      var sent := form.HandleSubmit();
      if sent.Some? {
        AddTodo(sent.value, id, createdAt);
      }
    }
  }
}
