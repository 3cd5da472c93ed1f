/** The list work of the todo component: the todo record, the seed list, and
    the pure transformations (map, filter, append) that each event handler
    applies to the list of todos and to the list of selected ids. */
module TodoList {
  import opened Seqs
  import opened Text

  /** One entry of the list. Ids are plain numbers; nothing keeps them unique. */
  datatype Todo = Todo(id: int, text: string, completed: bool)

  /** The ids of `todos`, in list order (`todos.map((todo) => todo.id)`). */
  function Ids(todos: seq<Todo>): (r: seq<int>)
    ensures |r| == |todos|
    ensures forall i :: 0 <= i < |todos| ==> r[i] == todos[i].id
  {
    seq(|todos|, i requires 0 <= i < |todos| => todos[i].id)
  }

  /** Entry `i` carries id `i + 1`, as the seed list does and as adding keeps. */
  ghost predicate NumberedFromOne(todos: seq<Todo>) {
    forall i :: 0 <= i < |todos| ==> todos[i].id == i + 1
  }

  /** No two entries share an id. */
  predicate UniqueIds(todos: seq<Todo>) {
    forall i, j :: 0 <= i < j < |todos| ==> todos[i].id != todos[j].id
  }

  /** Every selected id names an entry of the list. */
  predicate SelectionWithin(selected: seq<int>, todos: seq<Todo>) {
    forall x :: x in selected ==> x in Ids(todos)
  }

  /** The list the component starts with. */
  function Seed(): (r: seq<Todo>)
    ensures |r| == 3 && NumberedFromOne(r) && UniqueIds(r)
    ensures forall i :: 0 <= i < |r| ==> !r[i].completed
  {
    [ Todo(1, "Add your tasks", false),
      Todo(2, "Mark the completed tasks", false),
      Todo(3, "Clear the selected tasks", false) ]
  }

  /** The new entry add builds: numbered one past the current length,
      holding the text exactly as typed, not completed. */
  function NewEntry(todos: seq<Todo>, text: string): Todo {
    Todo(|todos| + 1, text, false)
  }

  /** Numbering entries by position makes their ids unique. */
  lemma NumberedIdsAreUnique(todos: seq<Todo>)
    requires NumberedFromOne(todos)
    ensures UniqueIds(todos)
  {
  }

  /** Appending the entry add builds keeps the numbering 1..n, now 1..n+1. */
  lemma AppendKeepsNumbering(todos: seq<Todo>, text: string)
    requires NumberedFromOne(todos)
    ensures NumberedFromOne(todos + [NewEntry(todos, text)])
    ensures Ids(todos + [NewEntry(todos, text)]) == Ids(todos) + [|todos| + 1]
  {
  }

  /** Appending anything keeps every selected id present. */
  lemma AppendKeepsSelection(selected: seq<int>, todos: seq<Todo>, t: Todo)
    requires SelectionWithin(selected, todos)
    ensures SelectionWithin(selected, todos + [t])
  {
    assert Ids(todos + [t]) == Ids(todos) + [t.id];
  }

  // ----- toggle and click: flip `completed` on the entries with a given id

  /** The toggle `map`: every entry whose id is `id` has its `completed`
      flipped; ids, texts, length and order stay as they were. */
  function Toggled(todos: seq<Todo>, id: int): (r: seq<Todo>)
    ensures |r| == |todos| && Ids(r) == Ids(todos)
    ensures forall i :: 0 <= i < |r| ==> r[i].text == todos[i].text
    ensures forall i :: 0 <= i < |r| ==>
      (r[i].completed <==> (if todos[i].id == id then !todos[i].completed else todos[i].completed))
  {
    seq(|todos|, i requires 0 <= i < |todos| =>
      if todos[i].id == id then todos[i].(completed := !todos[i].completed) else todos[i])
  }

  /** Toggling the same id twice gives back the original list. */
  lemma ToggleTwiceRestores(todos: seq<Todo>, id: int)
    ensures Toggled(Toggled(todos, id), id) == todos
  {
    var r := Toggled(Toggled(todos, id), id);
    assert forall i :: 0 <= i < |todos| ==> r[i] == todos[i];
  }

  // ----- save: replace the text of the entries with a given id

  /** The save `map`: every entry whose id is `id` takes `text`; ids,
      completion flags, length and order stay as they were. */
  function Renamed(todos: seq<Todo>, id: int, text: string): (r: seq<Todo>)
    ensures |r| == |todos| && Ids(r) == Ids(todos)
    ensures forall i :: 0 <= i < |r| ==> r[i].completed == todos[i].completed
    ensures forall i :: 0 <= i < |r| ==> r[i].text == (if todos[i].id == id then text else todos[i].text)
  {
    seq(|todos|, i requires 0 <= i < |todos| =>
      if todos[i].id == id then todos[i].(text := text) else todos[i])
  }

  /** An id that is absent leaves the list exactly as it was under save. */
  lemma RenameAbsentIsIdentity(todos: seq<Todo>, id: int, text: string)
    requires id !in Ids(todos)
    ensures Renamed(todos, id, text) == todos
  {
    var r := Renamed(todos, id, text);
    forall i | 0 <= i < |todos| ensures r[i] == todos[i] {
      assert Ids(todos)[i] == todos[i].id;
    }
  }

  // ----- remove: drop the entries with a given id

  /** The test `todo.id !== id`. */
  function OtherId(id: int): Todo -> bool {
    (t: Todo) => t.id != id
  }

  /** The remove `filter`: the entries whose id is not `id`, in their order. */
  function WithoutId(todos: seq<Todo>, id: int): (r: seq<Todo>)
    ensures IsSubsequence(r, todos)
    ensures forall t :: multiset(r)[t] == if t.id != id then multiset(todos)[t] else 0
    ensures forall t :: t in r <==> t in todos && t.id != id
    ensures id !in Ids(r)
    ensures id !in Ids(todos) ==> r == todos
  {
    var r := Filter(todos, OtherId(id));
    assert forall i :: 0 <= i < |r| ==> r[i] in r;
    if id !in Ids(todos) then
      assert forall t :: t in todos ==> OtherId(id)(t) by {
        forall t | t in todos ensures t.id != id {
          var i :| 0 <= i < |todos| && todos[i] == t;
          assert Ids(todos)[i] == t.id;
        }
      }
      FilterKeepsAll(todos, OtherId(id));
      r
    else
      r
  }

  /** Removing an id that is not selected keeps every selected id present:
      the situation the interface allows, since it hides the remove button
      on selected rows. */
  lemma RemoveUnselectedKeepsSelection(selected: seq<int>, todos: seq<Todo>, id: int)
    requires SelectionWithin(selected, todos)
    requires id !in selected
    ensures SelectionWithin(selected, WithoutId(todos, id))
  {
    var r := WithoutId(todos, id);
    forall x | x in selected ensures x in Ids(r) {
      var i :| 0 <= i < |todos| && Ids(todos)[i] == x;
      assert todos[i] in r;
      var j :| 0 <= j < |r| && r[j] == todos[i];
      assert Ids(r)[j] == x;
    }
  }

  // ----- clear-selected: drop the entries whose id is selected

  /** The test `!selectedTodos.includes(todo.id)`. */
  function Unselected(selected: seq<int>): Todo -> bool {
    (t: Todo) => t.id !in selected
  }

  /** The clear-selected `filter`: the entries whose id is not selected, in
      their order. */
  function WithoutSelected(todos: seq<Todo>, selected: seq<int>): (r: seq<Todo>)
    ensures IsSubsequence(r, todos)
    ensures forall t :: multiset(r)[t] == if t.id !in selected then multiset(todos)[t] else 0
    ensures forall t :: t in r <==> t in todos && t.id !in selected
    ensures forall x :: x in selected ==> x !in Ids(r)
    ensures selected == [] ==> r == todos
  {
    var r := Filter(todos, Unselected(selected));
    assert forall i :: 0 <= i < |r| ==> r[i] in r;
    if selected == [] then
      FilterKeepsAll(todos, Unselected(selected));
      r
    else
      r
  }

  // ----- the search filter

  /** The search test `todo.text.toLowerCase().includes(term.toLowerCase())`,
      with the case mapping `lower` given as a parameter. */
  function MatchesTerm(term: string, lower: string -> string): Todo -> bool {
    (t: Todo) => Includes(lower(t.text), lower(term))
  }

  /** The lowered `term` occurs somewhere in the lowered `text`. */
  ghost predicate ContainsTerm(text: string, term: string, lower: string -> string) {
    exists k :: OccursAt(lower(text), lower(term), k)
  }

  /** The search `filter`: the entries whose lowered text contains the
      lowered term, in their order. */
  function Matching(todos: seq<Todo>, term: string, lower: string -> string): (r: seq<Todo>)
    ensures IsSubsequence(r, todos)
    ensures forall t :: multiset(r)[t] == if ContainsTerm(t.text, term, lower) then multiset(todos)[t] else 0
    ensures forall t :: t in r <==> t in todos && ContainsTerm(t.text, term, lower)
    ensures lower(term) == [] ==> r == todos
  {
    var r := Filter(todos, MatchesTerm(term, lower));
    assert forall t :: MatchesTerm(term, lower)(t) <==> ContainsTerm(t.text, term, lower) by {
      forall t ensures MatchesTerm(term, lower)(t) <==> ContainsTerm(t.text, term, lower) {
        IncludesIffOccurs(lower(t.text), lower(term));
      }
    }
    if lower(term) == [] then
      assert forall t :: t in todos ==> MatchesTerm(term, lower)(t) by {
        forall t | t in todos ensures Includes(lower(t.text), lower(term)) {}
      }
      FilterKeepsAll(todos, MatchesTerm(term, lower));
      r
    else
      r
  }

  // ----- the selection list

  /** The test `selectedId !== id`. */
  function Unequal(id: int): int -> bool {
    (x: int) => x != id
  }

  /** The click update of the selection: an id already selected is removed,
      every occurrence of it; any other id is appended at the end. */
  function Clicked(selected: seq<int>, id: int): (r: seq<int>)
    ensures id in selected ==> IsSubsequence(r, selected)
    ensures id in selected ==> forall x :: multiset(r)[x] == if x != id then multiset(selected)[x] else 0
    ensures id in selected ==> id !in r && forall x :: x != id ==> (x in r <==> x in selected)
    ensures id !in selected ==> r == selected + [id]
  {
    if id in selected then Filter(selected, Unequal(id)) else selected + [id]
  }

  /** Two clicks on an id that was not selected give back the selection
      exactly, order included. */
  lemma {:induction false} ClickTwiceRestores(selected: seq<int>, id: int)
    requires id !in selected
    ensures Clicked(Clicked(selected, id), id) == selected
  {
    FilterAppend(selected, [id], Unequal(id));
    FilterKeepsAll(selected, Unequal(id));
    assert Filter([id], Unequal(id)) == [];
  }

  /** Clicking a row keeps every selected id present, whether it adds or
      removes the clicked id, as long as the clicked id names an entry. */
  lemma ClickKeepsSelection(selected: seq<int>, todos: seq<Todo>, id: int)
    requires SelectionWithin(selected, todos)
    requires id in Ids(todos)
    ensures SelectionWithin(Clicked(selected, id), Toggled(todos, id))
  {
  }

  /** The select-all update: a selection as long as the list is emptied,
      any other is replaced by all ids in list order. Only lengths are
      compared. */
  function SelectedAll(selected: seq<int>, todos: seq<Todo>): (r: seq<int>)
    ensures SelectionWithin(r, todos)
    ensures |selected| == |todos| ==> r == []
    ensures |selected| != |todos| ==> |r| == |todos| && forall i :: 0 <= i < |todos| ==> r[i] == todos[i].id
  {
    if |selected| == |todos| then [] else Ids(todos)
  }

  // ----- behaviours of the code as written that a reader might not expect

  /** Ids are not unique: in a list numbered 1..n with n >= 2 (the seed, say),
      removing id 1 and then adding numbers the new entry n, the id the last
      remaining entry still holds. */
  lemma {:induction false} RemoveThenAddRepeatsId(todos: seq<Todo>, text: string)
    requires NumberedFromOne(todos) && |todos| >= 2
    ensures var kept := WithoutId(todos, 1);
            var u := kept + [NewEntry(kept, text)];
            && |u| == |todos|
            && u[|u| - 2].id == |todos| && u[|u| - 1].id == |todos|
            && !UniqueIds(u)
  {
    RemoveFirstOfNumbered(todos);
    var kept := WithoutId(todos, 1);
    var u := kept + [NewEntry(kept, text)];
    assert u[|todos| - 2] == todos[|todos| - 1];
  }

  /** In a non-empty list numbered 1..n, removing id 1 drops exactly the
      first entry. */
  lemma {:induction false} RemoveFirstOfNumbered(todos: seq<Todo>)
    requires NumberedFromOne(todos) && |todos| >= 1
    ensures WithoutId(todos, 1) == todos[1..]
  {
    var p := OtherId(1);
    assert todos == [todos[0]] + todos[1..];
    FilterAppend([todos[0]], todos[1..], p);
    assert Filter([todos[0]], p) == [] by {
      assert [todos[0]][1..] == [];
    }
    assert forall t :: t in todos[1..] ==> p(t);
    FilterKeepsAll(todos[1..], p);
  }

  /** The selection is a list: two clicks on an id that was selected drop
      every occurrence of it and then put it back once, at the end, so the
      selection is not restored when the id was not already last. */
  lemma ClickTwiceOnSelectedMoves(selected: seq<int>, id: int)
    requires id in selected
    ensures Clicked(Clicked(selected, id), id) == Filter(selected, Unequal(id)) + [id]
    ensures selected[|selected| - 1] != id ==> Clicked(Clicked(selected, id), id) != selected
  {
  }

  /** Select-all compares lengths only: a selection of three ids none of
      which is in the seed list is emptied, not replaced by the seed ids. */
  lemma SelectAllComparesLengths()
    ensures SelectedAll([7, 8, 9], Seed()) == []
  {
  }

  /** The search ignores ASCII case: the term "ADD" matches the first seed
      entry, "Add your tasks". */
  lemma SearchIgnoresCase()
    ensures ContainsTerm(Seed()[0].text, "ADD", AsciiLower)
  {
    var text, term := AsciiLower(Seed()[0].text), AsciiLower("ADD");
    assert term == "add" by {
      assert |term| == 3 && term[0] == 'a' && term[1] == 'd' && term[2] == 'd';
    }
    assert text[..3] == "add" by {
      assert Seed()[0].text[..3] == "Add";
      assert text[0] == 'a' && text[1] == 'd' && text[2] == 'd';
    }
    assert OccursAt(text, term, 0);
  }
}
