/** The state of the todo component and its event handlers. The component
    keeps six independent state variables and every handler reads the current
    snapshot and writes new values into some of them; here they are the fields
    of one `Store` object and each handler is one method, an atomic step. */
module TodoStore {
  import opened Seqs
  import opened Text
  import opened TodoList

  /** A value or `null`. */
  datatype Option<T> = None | Some(value: T)

  class Store {
    var todos: seq<Todo>
    var newTodo: string
    var searchTerm: string
    var editingTodoId: Option<int>
    var editingTodoText: string
    var selectedTodos: seq<int>

    /** Every selected id names an entry of the list. The interface keeps
        this as long as the remove button is pressed on unselected rows only,
        which is the only place it is shown. */
    ghost predicate SelectionValid()
      reads this
    {
      SelectionWithin(selectedTodos, todos)
    }

    /** The state the component mounts with: the seed list, nothing typed,
        nothing searched, edited or selected. */
    constructor ()
      ensures todos == Seed() && newTodo == "" && searchTerm == ""
      ensures editingTodoId == None && editingTodoText == "" && selectedTodos == []
      ensures NumberedFromOne(todos) && SelectionValid()
    {
      todos := Seed();
      newTodo := "";
      searchTerm := "";
      editingTodoId := None;
      editingTodoText := "";
      selectedTodos := [];
    }

    /** The list as shown: the entries whose text contains the search term,
        both lowered by `lower` (which stands for `toLowerCase`). */
    function FilteredTodos(lower: string -> string): (r: seq<Todo>)
      reads this
      ensures IsSubsequence(r, todos)
      ensures forall t :: multiset(r)[t] == if ContainsTerm(t.text, searchTerm, lower) then multiset(todos)[t] else 0
      ensures forall t :: t in r <==> t in todos && ContainsTerm(t.text, searchTerm, lower)
      ensures lower(searchTerm) == [] ==> r == todos
    {
      Matching(todos, searchTerm, lower)
    }

    /** Typing into the new-todo box. */
    method SetNewTodo(value: string)
      modifies this
      ensures newTodo == value
      ensures todos == old(todos) && searchTerm == old(searchTerm)
      ensures editingTodoId == old(editingTodoId) && editingTodoText == old(editingTodoText)
      ensures selectedTodos == old(selectedTodos)
    {
      newTodo := value;
    }

    /** Typing into the search box. */
    method SetSearchTerm(value: string)
      modifies this
      ensures searchTerm == value
      ensures todos == old(todos) && newTodo == old(newTodo)
      ensures editingTodoId == old(editingTodoId) && editingTodoText == old(editingTodoText)
      ensures selectedTodos == old(selectedTodos)
    {
      searchTerm := value;
    }

    /** Typing into the edit box of the row being edited. */
    method SetEditingTodoText(value: string)
      modifies this
      ensures editingTodoText == value
      ensures todos == old(todos) && newTodo == old(newTodo) && searchTerm == old(searchTerm)
      ensures editingTodoId == old(editingTodoId) && selectedTodos == old(selectedTodos)
    {
      editingTodoText := value;
    }

    /** Add: a blank input changes nothing; otherwise one entry is appended
        with id one past the current length, the text exactly as typed (not
        trimmed) and not completed, and the input is emptied. */
    method AddTodo()
      modifies this
      ensures AllWhitespace(old(newTodo)) ==> todos == old(todos) && newTodo == old(newTodo)
      ensures !AllWhitespace(old(newTodo)) ==>
        && todos == old(todos) + [Todo(|old(todos)| + 1, old(newTodo), false)]
        && newTodo == ""
      ensures searchTerm == old(searchTerm) && selectedTodos == old(selectedTodos)
      ensures editingTodoId == old(editingTodoId) && editingTodoText == old(editingTodoText)
      ensures old(NumberedFromOne(todos)) ==> NumberedFromOne(todos)
      ensures old(SelectionValid()) ==> SelectionValid()
    {
      TrimEmptyIffBlank(newTodo);
      if Trim(newTodo) != [] {
        var entry := NewEntry(todos, newTodo);
        if NumberedFromOne(todos) {
          AppendKeepsNumbering(todos, newTodo);
        }
        if SelectionValid() {
          AppendKeepsSelection(selectedTodos, todos, entry);
        }
        todos := todos + [entry];
        newTodo := "";
      }
    }

    /** Toggle: flips completion on every entry with id `id`, nothing else. */
    method ToggleTodo(id: int)
      modifies this
      ensures todos == Toggled(old(todos), id)
      ensures newTodo == old(newTodo) && searchTerm == old(searchTerm)
      ensures editingTodoId == old(editingTodoId) && editingTodoText == old(editingTodoText)
      ensures selectedTodos == old(selectedTodos)
      ensures old(NumberedFromOne(todos)) ==> NumberedFromOne(todos)
      ensures old(SelectionValid()) ==> SelectionValid()
    {
      todos := Toggled(todos, id);
    }

    /** Remove: drops every entry with id `id` and touches nothing else, not
        the selection and not the edit state. */
    method RemoveTodo(id: int)
      modifies this
      ensures todos == WithoutId(old(todos), id)
      ensures newTodo == old(newTodo) && searchTerm == old(searchTerm)
      ensures editingTodoId == old(editingTodoId) && editingTodoText == old(editingTodoText)
      ensures selectedTodos == old(selectedTodos)
      ensures old(SelectionValid()) && id !in old(selectedTodos) ==> SelectionValid()
    {
      if SelectionValid() && id !in selectedTodos {
        RemoveUnselectedKeepsSelection(selectedTodos, todos, id);
      }
      todos := WithoutId(todos, id);
    }

    /** Begin edit: remembers the row and puts its text in the edit box. */
    method EditTodo(id: int, text: string)
      modifies this
      ensures editingTodoId == Some(id) && editingTodoText == text
      ensures todos == old(todos) && newTodo == old(newTodo) && searchTerm == old(searchTerm)
      ensures selectedTodos == old(selectedTodos)
    {
      editingTodoId := Some(id);
      editingTodoText := text;
    }

    /** Save: every entry with id `id` takes the text of the edit box and
        edit mode ends; the edit box keeps its text. */
    method SaveTodo(id: int)
      modifies this
      ensures todos == Renamed(old(todos), id, old(editingTodoText))
      ensures editingTodoId == None && editingTodoText == old(editingTodoText)
      ensures newTodo == old(newTodo) && searchTerm == old(searchTerm)
      ensures selectedTodos == old(selectedTodos)
      ensures old(NumberedFromOne(todos)) ==> NumberedFromOne(todos)
      ensures old(SelectionValid()) ==> SelectionValid()
    {
      todos := Renamed(todos, id, editingTodoText);
      editingTodoId := None;
    }

    /** Cancel: leaves edit mode and empties the edit box; the list is
        untouched. Its result does not depend on the edit state it starts
        from, so a second cancel changes nothing. */
    method CancelEdit()
      modifies this
      ensures editingTodoId == None && editingTodoText == ""
      ensures todos == old(todos) && newTodo == old(newTodo) && searchTerm == old(searchTerm)
      ensures selectedTodos == old(selectedTodos)
    {
      editingTodoId := None;
      editingTodoText := "";
    }

    /** Clear all: empties the list and the selection; the edit state stays. */
    method ClearAll()
      modifies this
      ensures todos == [] && selectedTodos == []
      ensures newTodo == old(newTodo) && searchTerm == old(searchTerm)
      ensures editingTodoId == old(editingTodoId) && editingTodoText == old(editingTodoText)
      ensures NumberedFromOne(todos) && SelectionValid()
    {
      todos := [];
      selectedTodos := [];
    }

    /** Row click: flips completion of the entries with id `id` and toggles
        `id` in the selection, removing every occurrence or appending it. */
    method TodoClick(id: int)
      modifies this
      ensures todos == Toggled(old(todos), id)
      ensures selectedTodos == Clicked(old(selectedTodos), id)
      ensures newTodo == old(newTodo) && searchTerm == old(searchTerm)
      ensures editingTodoId == old(editingTodoId) && editingTodoText == old(editingTodoText)
      ensures old(NumberedFromOne(todos)) ==> NumberedFromOne(todos)
      ensures old(SelectionValid()) && id in old(Ids(todos)) ==> SelectionValid()
    {
      if SelectionValid() && id in Ids(todos) {
        ClickKeepsSelection(selectedTodos, todos, id);
      }
      todos := Toggled(todos, id);
      if id in selectedTodos {
        selectedTodos := Filter(selectedTodos, Unequal(id));
      } else {
        selectedTodos := selectedTodos + [id];
      }
    }

    /** Select all: a selection as long as the list is emptied, any other is
        replaced by every id of the list in order. */
    method SelectAll()
      modifies this
      ensures selectedTodos == SelectedAll(old(selectedTodos), old(todos))
      ensures todos == old(todos) && newTodo == old(newTodo) && searchTerm == old(searchTerm)
      ensures editingTodoId == old(editingTodoId) && editingTodoText == old(editingTodoText)
      ensures SelectionValid()
    {
      if |selectedTodos| == |todos| {
        selectedTodos := [];
      } else {
        selectedTodos := Ids(todos);
      }
    }

    /** Clear selected: keeps the entries whose id is not selected, in order,
        and empties the selection; the edit state stays. */
    method ClearSelected()
      modifies this
      ensures todos == WithoutSelected(old(todos), old(selectedTodos))
      ensures selectedTodos == []
      ensures newTodo == old(newTodo) && searchTerm == old(searchTerm)
      ensures editingTodoId == old(editingTodoId) && editingTodoText == old(editingTodoText)
      ensures SelectionValid()
    {
      todos := WithoutSelected(todos, selectedTodos);
      selectedTodos := [];
    }
  }

  // Sessions on the seed list, replaying user actions through the store's
  // contracts.

  /** A blank input is ignored; a typed task is appended as entry 4. */
  method AddSession() {
    var s := new Store();
    s.SetNewTodo("   ");
    s.AddTodo();
    assert s.todos == Seed();
    s.SetNewTodo("Buy milk");
    assert !IsWhitespace(s.newTodo[0]);
    s.AddTodo();
    assert s.todos == Seed() + [Todo(4, "Buy milk", false)];
    assert s.newTodo == "";
  }

  /** The search is case-insensitive under ASCII folding. */
  method SearchSession() {
    var s := new Store();
    s.SetSearchTerm("ADD");
    SearchIgnoresCase();
    var shown := s.FilteredTodos(AsciiLower);
    assert s.todos[0] in shown;
  }

  /** Clicking row 2 completes and selects it; clearing the selection then
      drops it. */
  method ClickSession() {
    var s := new Store();
    s.TodoClick(2);
    assert s.todos[1] == Todo(2, "Mark the completed tasks", true);
    assert s.selectedTodos == [2];
    s.ClearSelected();
    assert s.selectedTodos == [];
    assert forall t :: t in s.todos ==> t.id != 2;
  }

  /** Editing row 1 and saving replaces its text and leaves edit mode;
      clearing everything afterwards does not touch the edit state. */
  method EditSession() {
    var s := new Store();
    s.EditTodo(1, "Add your tasks");
    s.SetEditingTodoText("Add my tasks");
    s.SaveTodo(1);
    assert s.editingTodoId == None;
    assert s.todos[0].text == "Add my tasks";
    s.EditTodo(3, "Clear the selected tasks");
    s.ClearAll();
    assert s.todos == [] && s.editingTodoId == Some(3);
  }

  /** Removing an id that is not there changes nothing. */
  method RemoveAbsentSession() {
    var s := new Store();
    assert 99 !in Ids(s.todos);
    s.RemoveTodo(99);
    assert s.todos == Seed();
  }

  /** A second cancel leaves the state exactly as the first left it. */
  method CancelSession() {
    var s := new Store();
    s.EditTodo(2, "Mark the completed tasks");
    s.CancelEdit();
    var todos, id, text := s.todos, s.editingTodoId, s.editingTodoText;
    s.CancelEdit();
    assert s.todos == todos && s.editingTodoId == id && s.editingTodoText == text;
  }
}
