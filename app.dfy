/**
 * The todo-list state of the `App` component and its event handlers. Each
 * piece of React state (`todos`, `text`, `editId`) is a field; each handler is
 * a method that performs the handler's `set…` calls in order.
 */
module App {

  import opened Wrappers
  import opened JsString
  import opened Todos

  class TodoApp {

    /** The list, in insertion order. */
    var todos: seq<Todo>
    /** The input buffer bound to the form's text field. */
    var text: string
    /** `null` (add mode) or the id of the item being edited. */
    var editId: Option<Id>

    /**
     * The ids of the list are pairwise distinct, as the list's keys require,
     * and no item's text is blank.
     */
    ghost predicate Valid()
      reads this
    {
      DistinctIds(todos) && NoBlankTexts(todos)
    }

    /** The initial state: no items, an empty buffer, add mode. */
    constructor ()
      ensures todos == [] && text == "" && editId == None
      ensures Valid()
    {
      todos, text, editId := [], "", None;
    }

    /** The input's change handler: the buffer takes whatever was typed. */
    method Input(value: string)
      modifies this`text
      ensures text == value
      ensures todos == old(todos) && editId == old(editId)
    {
      text := value;
    }

    /**
     * The form's submit handler. A blank buffer is rejected and nothing
     * changes. Otherwise, in edit mode the buffer replaces the text of the
     * edited item and edit mode ends; in add mode a new item with id `freshId`
     * and the buffer, untrimmed, as text is appended. In both cases the
     * buffer is then cleared. `freshId` stands for the `Date.now()` reading.
     */
    method AddTodo(freshId: Id)
      modifies this`todos, this`text, this`editId
      ensures IsBlank(old(text)) ==>
        todos == old(todos) && text == old(text) && editId == old(editId)
      ensures !IsBlank(old(text)) && old(editId).Some? ==>
        todos == Edited(old(todos), old(editId).value, old(text)) && editId == None && text == ""
      ensures !IsBlank(old(text)) && old(editId).None? ==>
        todos == Appended(old(todos), freshId, old(text)) && editId == None && text == ""
      ensures old(Valid()) && (old(editId).None? ==> Absent(old(todos), freshId)) ==> Valid()
    {
      TrimEmptyIffBlank(text);
      if Trim(text) == "" {
        return;
      }
      if editId.Some? {
        var edited := Edited(todos, editId.value, text);
        if Valid() {
          SameIdsPreserveDistinct(todos, edited);
          EditedPreservesNoBlankTexts(todos, editId.value, text);
        }
        todos := edited;
        editId := None;
      } else {
        var appended := Appended(todos, freshId, text);
        if Valid() {
          AppendedPreservesNoBlankTexts(todos, freshId, text);
          if Absent(todos, freshId) {
            AppendedPreservesDistinct(todos, freshId, text);
          }
        }
        todos := appended;
      }
      text := "";
    }

    /** Flip `completed` on the items with id `id`; nothing else changes. */
    method ToggleTodo(id: Id)
      modifies this`todos
      ensures todos == Toggled(old(todos), id)
      ensures text == old(text) && editId == old(editId)
      ensures old(Valid()) ==> Valid()
    {
      var toggled := Toggled(todos, id);
      if Valid() {
        SameIdsPreserveDistinct(todos, toggled);
        ToggledPreservesNoBlankTexts(todos, id);
      }
      todos := toggled;
    }

    /** Enter edit mode for `id` and load `value` into the buffer; the list is untouched. */
    method StartEdit(id: Id, value: string)
      modifies this`editId, this`text
      ensures editId == Some(id) && text == value
      ensures todos == old(todos)
    {
      editId := Some(id);
      text := value;
    }

    /**
     * Remove the items with id `id`. Edit mode is not left, even when the
     * edited item is the one removed.
     */
    method DeleteTodo(id: Id)
      modifies this`todos
      ensures todos == Without(old(todos), id)
      ensures text == old(text) && editId == old(editId)
      ensures old(Valid()) ==> Valid()
    {
      if Valid() {
        WithoutPreservesDistinct(todos, id);
        WithoutPreservesNoBlankTexts(todos, id);
      }
      todos := Without(todos, id);
    }
  }

  /** Two submits in add mode append two items in order; the second keeps its spaces. */
  method SessionAdd(a: Id, b: Id) returns (app: TodoApp)
    requires a != b
    ensures fresh(app)
    ensures app.todos == [Todo(a, "Buy milk", false), Todo(b, " Walk dog ", false)]
    ensures app.text == "" && app.editId == None && app.Valid()
  {
    app := new TodoApp();
    app.Input("Buy milk");
    assert !IsWhitespace(app.text[0]);
    app.AddTodo(a);
    app.Input(" Walk dog ");
    assert !IsWhitespace(app.text[1]);
    app.AddTodo(b);
  }

  /** An edit session rewrites the edited text in place and ends edit mode. */
  method SessionEdit(a: Id, b: Id)
    requires a != b
  {
    var app := SessionAdd(a, b);
    app.StartEdit(a, "Buy milk");
    app.Input("Buy oat milk");
    assert !IsWhitespace(app.text[0]);
    app.AddTodo(b);
    assert app.todos[0] == Todo(a, "Buy oat milk", false);
    assert app.todos[1] == Todo(b, " Walk dog ", false);
    assert |app.todos| == 2 && app.editId == None;
  }

  /** Toggling twice restores the list; deleting removes the item; a blank submit does nothing. */
  method SessionToggleDelete(a: Id, b: Id)
    requires a != b
  {
    var app := SessionAdd(a, b);
    var before := app.todos;
    app.ToggleTodo(a);
    assert app.todos[0].completed && !app.todos[1].completed;
    app.ToggleTodo(a);
    ToggledTwice(before, a);
    assert app.todos == before;

    app.DeleteTodo(a);
    WithoutConcat([before[0]], [before[1]], a);
    assert [before[0]] + [before[1]] == before;
    assert app.todos == [Todo(b, " Walk dog ", false)];

    app.Input("   ");
    app.AddTodo(a);
    assert app.todos == [Todo(b, " Walk dog ", false)] && app.text == "   ";
  }
}
