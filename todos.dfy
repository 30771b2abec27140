/**
 * The todo records and the pure list transforms that the component's
 * handlers compute before handing the new list to `setTodos`: the two
 * `todos.map` rewrites (toggle, edit), the spread that appends, and the
 * `todos.filter` that deletes.
 */
module Todos {

  import opened JsString

  /**
   * An item id. The component takes ids from `Date.now()`, a positive count
   * of milliseconds, so every id is a positive integer (and therefore truthy).
   */
  type Id = n: int | n > 0 witness 1

  datatype Todo = Todo(id: Id, text: string, completed: bool)

  /** No item of `todos` carries `id`. */
  predicate Absent(todos: seq<Todo>, id: Id)
  {
    forall k :: 0 <= k < |todos| ==> todos[k].id != id
  }

  /** The list is keyed by id when rendered, so ids are meant to be pairwise distinct. */
  predicate DistinctIds(todos: seq<Todo>)
  {
    forall i, j :: 0 <= i < j < |todos| ==> todos[i].id != todos[j].id
  }

  /** Every item has a text that is not blank: an item is only ever written behind the blank test. */
  predicate NoBlankTexts(todos: seq<Todo>)
  {
    forall k :: 0 <= k < |todos| ==> !IsBlank(todos[k].text)
  }

  /** Two lists with the same ids at the same positions. */
  predicate SameIds(a: seq<Todo>, b: seq<Todo>)
  {
    |a| == |b| && forall k :: 0 <= k < |a| ==> a[k].id == b[k].id
  }

  /** The `todos.map` of toggleTodo: flip `completed` on every item whose id is `id`. */
  function Toggled(todos: seq<Todo>, id: Id): (r: seq<Todo>)
    ensures SameIds(r, todos)
    ensures forall k :: 0 <= k < |r| ==> r[k].text == todos[k].text
    ensures forall k :: 0 <= k < |r| ==> r[k].completed == (todos[k].completed != (todos[k].id == id))
  {
    if todos == [] then []
    else
      var t := todos[0];
      [if t.id == id then t.(completed := !t.completed) else t] + Toggled(todos[1..], id)
  }

  /** The `todos.map` of addTodo in edit mode: replace the text of every item whose id is `id`. */
  function Edited(todos: seq<Todo>, id: Id, text: string): (r: seq<Todo>)
    ensures SameIds(r, todos)
    ensures forall k :: 0 <= k < |r| ==> r[k].completed == todos[k].completed
    ensures forall k :: 0 <= k < |r| ==> r[k].text == if todos[k].id == id then text else todos[k].text
  {
    if todos == [] then []
    else
      var t := todos[0];
      [if t.id == id then t.(text := text) else t] + Edited(todos[1..], id, text)
  }

  /** The `todos.filter` of deleteTodo: keep the items whose id is not `id`. */
  function Without(todos: seq<Todo>, id: Id): (r: seq<Todo>)
    ensures |r| <= |todos|
    ensures Absent(r, id)
    ensures forall t :: t in r <==> t in todos && t.id != id
  {
    if todos == [] then []
    else if todos[0].id == id then Without(todos[1..], id)
    else [todos[0]] + Without(todos[1..], id)
  }

  /** The spread of addTodo in add mode: a new, not completed item at the end. */
  function Appended(todos: seq<Todo>, id: Id, text: string): (r: seq<Todo>)
    ensures |r| == |todos| + 1 && r[..|todos|] == todos
    ensures r[|todos|] == Todo(id, text, false)
  {
    todos + [Todo(id, text, false)]
  }

  // ----- toggle -----

  /** Toggling the same id twice gives back the original list. */
  lemma {:induction false} ToggledTwice(todos: seq<Todo>, id: Id)
    ensures Toggled(Toggled(todos, id), id) == todos
  {
    if todos != [] {
      ToggledTwice(todos[1..], id);
    }
  }

  /** Toggling an id no item carries changes nothing. */
  lemma {:induction false} ToggledAbsent(todos: seq<Todo>, id: Id)
    requires Absent(todos, id)
    ensures Toggled(todos, id) == todos
  {
    if todos != [] {
      ToggledAbsent(todos[1..], id);
    }
  }

  // ----- edit -----

  /** Editing an id no item carries changes nothing. */
  lemma {:induction false} EditedAbsent(todos: seq<Todo>, id: Id, text: string)
    requires Absent(todos, id)
    ensures Edited(todos, id, text) == todos
  {
    if todos != [] {
      EditedAbsent(todos[1..], id, text);
    }
  }

  /** Editing twice keeps only the second text. */
  lemma {:induction false} EditedTwice(todos: seq<Todo>, id: Id, first: string, second: string)
    ensures Edited(Edited(todos, id, first), id, second) == Edited(todos, id, second)
  {
    if todos != [] {
      EditedTwice(todos[1..], id, first, second);
    }
  }

  // ----- delete -----

  /** Deleting an id no item carries changes nothing. */
  lemma {:induction false} WithoutAbsent(todos: seq<Todo>, id: Id)
    requires Absent(todos, id)
    ensures Without(todos, id) == todos
  {
    if todos != [] {
      WithoutAbsent(todos[1..], id);
    }
  }

  /**
   * Deleting preserves relative order: filtering a concatenation filters each
   * part and keeps the parts in place.
   */
  lemma {:induction false} WithoutConcat(a: seq<Todo>, b: seq<Todo>, id: Id)
    ensures Without(a + b, id) == Without(a, id) + Without(b, id)
  {
    if a == [] {
      assert a + b == b;
    } else {
      assert (a + b)[1..] == a[1..] + b;
      WithoutConcat(a[1..], b, id);
    }
  }

  /** Deleting twice is deleting once. */
  lemma WithoutIdempotent(todos: seq<Todo>, id: Id)
    ensures Without(Without(todos, id), id) == Without(todos, id)
  {
    WithoutAbsent(Without(todos, id), id);
  }

  /** The survivors of a delete are exactly the others, so their count is the others' count. */
  lemma {:induction false} WithoutCount(todos: seq<Todo>, id: Id)
    ensures |Without(todos, id)| == |todos| - Occurrences(todos, id)
  {
    if todos != [] {
      WithoutCount(todos[1..], id);
    }
  }

  /** The number of items that carry `id`. */
  function Occurrences(todos: seq<Todo>, id: Id): (n: nat)
    ensures n <= |todos|
    ensures n == 0 <==> Absent(todos, id)
  {
    if todos == [] then 0
    else (if todos[0].id == id then 1 else 0) + Occurrences(todos[1..], id)
  }

  /**
   * Deleting the item being edited does not leave edit mode, so the next
   * accepted submit edits nothing: the list stays as the delete left it.
   */
  lemma EditAfterDelete(todos: seq<Todo>, id: Id, text: string)
    ensures Edited(Without(todos, id), id, text) == Without(todos, id)
  {
    EditedAbsent(Without(todos, id), id, text);
  }

  /** An edit with a text that is not blank introduces no blank text. */
  lemma EditedPreservesNoBlankTexts(todos: seq<Todo>, id: Id, text: string)
    requires NoBlankTexts(todos) && !IsBlank(text)
    ensures NoBlankTexts(Edited(todos, id, text))
  {
    var r := Edited(todos, id, text);
    forall k | 0 <= k < |r| ensures !IsBlank(r[k].text) {
      assert r[k].text == if todos[k].id == id then text else todos[k].text;
    }
  }

  /** Appending an item whose text is not blank introduces no blank text. */
  lemma AppendedPreservesNoBlankTexts(todos: seq<Todo>, id: Id, text: string)
    requires NoBlankTexts(todos) && !IsBlank(text)
    ensures NoBlankTexts(Appended(todos, id, text))
  {
    var r := Appended(todos, id, text);
    forall k | 0 <= k < |r| ensures !IsBlank(r[k].text) {
      if k < |todos| {
        assert r[k] == todos[k];
      }
    }
  }

  /** Toggling keeps every text, so no blank text appears. */
  lemma ToggledPreservesNoBlankTexts(todos: seq<Todo>, id: Id)
    requires NoBlankTexts(todos)
    ensures NoBlankTexts(Toggled(todos, id))
  {
    var r := Toggled(todos, id);
    forall k | 0 <= k < |r| ensures !IsBlank(r[k].text) {
      assert r[k].text == todos[k].text;
    }
  }

  /** Deleting keeps every survivor's text, so no blank text appears. */
  lemma WithoutPreservesNoBlankTexts(todos: seq<Todo>, id: Id)
    requires NoBlankTexts(todos)
    ensures NoBlankTexts(Without(todos, id))
  {
    var r := Without(todos, id);
    forall k | 0 <= k < |r| ensures !IsBlank(r[k].text) {
      assert r[k] in todos;
      var m :| 0 <= m < |todos| && todos[m] == r[k];
    }
  }

  // ----- distinct ids -----

  /** A rewrite that keeps every id in place keeps the ids distinct. */
  lemma SameIdsPreserveDistinct(before: seq<Todo>, after: seq<Todo>)
    requires SameIds(after, before) && DistinctIds(before)
    ensures DistinctIds(after)
  {
    forall i, j | 0 <= i < j < |after| ensures after[i].id != after[j].id {
      assert before[i].id == after[i].id && before[j].id == after[j].id;
    }
  }

  /** Appending an item whose id is new keeps the ids distinct. */
  lemma AppendedPreservesDistinct(todos: seq<Todo>, id: Id, text: string)
    requires DistinctIds(todos) && Absent(todos, id)
    ensures DistinctIds(Appended(todos, id, text))
  {
    var r := Appended(todos, id, text);
    forall i, j | 0 <= i < j < |r| ensures r[i].id != r[j].id {
      if j < |todos| {
        assert r[i] == todos[i] && r[j] == todos[j];
      } else {
        assert r[i] == todos[i];
      }
    }
  }

  /** Deleting keeps the ids distinct. */
  lemma {:induction false} WithoutPreservesDistinct(todos: seq<Todo>, id: Id)
    requires DistinctIds(todos)
    ensures DistinctIds(Without(todos, id))
  {
    if todos != [] {
      var rest := todos[1..];
      assert DistinctIds(rest) by {
        forall i, j | 0 <= i < j < |rest| ensures rest[i].id != rest[j].id {
          assert rest[i] == todos[i + 1] && rest[j] == todos[j + 1];
        }
      }
      WithoutPreservesDistinct(rest, id);
      var w := Without(rest, id);
      if todos[0].id != id {
        var r := [todos[0]] + w;
        forall i, j | 0 <= i < j < |r| ensures r[i].id != r[j].id {
          if i == 0 {
            assert r[j] in w;
            assert r[j] in rest;
            var m :| 0 <= m < |rest| && rest[m] == r[j];
            assert todos[m + 1] == r[j];
          } else {
            assert r[i] == w[i - 1] && r[j] == w[j - 1];
          }
        }
      }
    }
  }
}
