/** The state controller of the to-do page: the list shown, the draft being
    typed and the row picked for deletion, with one method per event that
    changes them. Each asynchronous request is split into the call that issues
    it (returning the `Request` it would send) and a separate completion event
    that applies the response; completions may arrive in any order. */
module TodoApp {
  import opened Wrappers
  import opened JsString
  import opened TodoList

  /** A request sent to the remote collection (the initial `GET /todos` is issued on mounting). */
  datatype Request = Post(body: TodoCreate) | Delete(id: int)

  /** The draft after a reset: both fields empty. */
  const EmptyDraft := TodoCreate("", "")

  /** The record the server's create handler answers with: the submitted fields and the id it assigned. */
  function PostResponse(body: TodoCreate, newId: int): (r: Todo)
    ensures r.id == newId && TodoCreate(r.title, r.description) == body
  {
    Todo(newId, body.title, body.description)
  }

  class App {
    /** The list of todos shown in the table. */
    var todos: seq<Todo>
    /** The draft `{title, description}` bound to the two inputs. */
    var newTodo: TodoCreate
    /** The id picked for deletion, or none. */
    var todoToDelete: Option<int>

    /** The state of a freshly mounted page, before the load completes. */
    constructor ()
      ensures todos == [] && newTodo == EmptyDraft && todoToDelete == None
    {
      todos := [];
      newTodo := EmptyDraft;
      todoToDelete := None;
    }

    /** The `GET /todos` response arrives: the whole list is replaced by it. */
    method LoadComplete(data: seq<Todo>)
      modifies this
      ensures todos == data
      ensures newTodo == old(newTodo) && todoToDelete == old(todoToDelete)
    {
      todos := data;
    }

    /** Typing in the title input changes the title and nothing else. */
    method EditTitle(value: string)
      modifies this
      ensures newTodo.title == value && newTodo.description == old(newTodo.description)
      ensures todos == old(todos) && todoToDelete == old(todoToDelete)
    {
      newTodo := newTodo.(title := value);
    }

    /** Typing in the description input changes the description and nothing else. */
    method EditDescription(value: string)
      modifies this
      ensures newTodo.description == value && newTodo.title == old(newTodo.title)
      ensures todos == old(todos) && todoToDelete == old(todoToDelete)
    {
      newTodo := newTodo.(description := value);
    }

    /** Saving the draft. A blank title is refused before anything happens: no
        request and the draft stays exactly as typed. Otherwise the draft, as
        typed and untrimmed, is posted and the draft is reset at once, whether
        or not the request ever completes. The list is never touched here. */
    method AddNewTodo() returns (request: Option<Request>)
      modifies this
      ensures IsBlank(old(newTodo.title)) ==> request == None && newTodo == old(newTodo)
      ensures !IsBlank(old(newTodo.title)) ==>
                request == Some(Post(TodoCreate(old(newTodo.title), old(newTodo.description)))) &&
                newTodo == EmptyDraft
      ensures todos == old(todos) && todoToDelete == old(todoToDelete)
    {
      if IsBlank(newTodo.title) {
        return None;
      }
      var payload := TodoCreate(newTodo.title, newTodo.description);
      request := Some(Post(payload));
      newTodo := EmptyDraft;
    }

    /** The `POST /todos` response arrives: its record is appended at the end.
        The ids stay distinct when they were and the server's id is fresh;
        the page itself never checks this. */
    method CreateComplete(data: Todo)
      modifies this
      ensures todos == Appended(old(todos), data)
      ensures UniqueIds(todos) <==> old(UniqueIds(todos)) && data.id !in old(Ids(todos))
      ensures newTodo == old(newTodo) && todoToDelete == old(todoToDelete)
    {
      AppendedUniqueIff(todos, data);
      todos := Appended(todos, data);
    }

    /** Pressing a row's delete button picks that row's id. */
    method SelectForDelete(id: int)
      modifies this
      ensures todoToDelete == Some(id)
      ensures todos == old(todos) && newTodo == old(newTodo)
    {
      todoToDelete := Some(id);
    }

    /** Deleting an id: the request is sent and the selection is cleared at
        once, whatever the request's outcome. The list is not touched here. */
    method DeleteTodo(id: int) returns (request: Request)
      modifies this
      ensures request == Delete(id)
      ensures todoToDelete == None
      ensures todos == old(todos) && newTodo == old(newTodo)
    {
      request := Delete(id);
      todoToDelete := None;
    }

    /** Confirming in a row's alert dialog. With no selection nothing happens;
        otherwise the selected id is deleted, which is not necessarily the id
        of the row whose dialog was confirmed. */
    method ConfirmDelete() returns (request: Option<Request>)
      modifies this
      ensures old(todoToDelete) == None ==> request == None && todoToDelete == None
      ensures old(todoToDelete).Some? ==> request == Some(Delete(old(todoToDelete).value)) && todoToDelete == None
      ensures todos == old(todos) && newTodo == old(newTodo)
    {
      request := None;
      if todoToDelete.Some? {
        var r := DeleteTodo(todoToDelete.value);
        request := Some(r);
      }
    }

    /** The `DELETE /todos/{id}` response arrives: every item with that id is
        filtered out; the others keep their order and nothing is added. */
    method DeleteComplete(id: int)
      modifies this
      ensures todos == WithoutId(old(todos), id)
      ensures id !in Ids(todos) && Ids(todos) == old(Ids(todos)) - {id}
      ensures IsSubsequence(todos, old(todos))
      ensures id !in old(Ids(todos)) ==> todos == old(todos)
      ensures old(UniqueIds(todos)) ==> UniqueIds(todos)
      ensures newTodo == old(newTodo) && todoToDelete == old(todoToDelete)
    {
      IdsWithoutId(todos, id);
      WithoutIdKeepsOrder(todos, id);
      WithoutIdUnchangedIff(todos, id);
      if UniqueIds(todos) {
        WithoutIdKeepsUnique(todos, id);
      }
      todos := WithoutId(todos, id);
    }
  }

  /** Saving the draft when the server answers the create at once, echoing the
      submitted fields with a fresh id `newId`. */
  method SubmitDraft(app: App, newId: int)
    requires newId !in Ids(app.todos)
    modifies app
    ensures IsBlank(old(app.newTodo.title)) ==> app.todos == old(app.todos) && app.newTodo == old(app.newTodo)
    ensures !IsBlank(old(app.newTodo.title)) ==>
              app.todos == old(app.todos) + [Todo(newId, old(app.newTodo.title), old(app.newTodo.description))] &&
              app.newTodo == EmptyDraft
    ensures old(UniqueIds(app.todos)) ==> UniqueIds(app.todos)
    ensures app.todoToDelete == old(app.todoToDelete)
  {
    var request := app.AddNewTodo();
    if request.Some? {
      match request.value
      case Post(body) => app.CreateComplete(PostResponse(body, newId));
    }
  }

  /** Picking an id and confirming the deletion leaves no selection, whether
      the delete request completes (`completes`) or is lost. */
  method PickAndDelete(app: App, id: int, completes: bool)
    modifies app
    ensures app.todoToDelete == None
    ensures completes ==> app.todos == WithoutId(old(app.todos), id)
    ensures !completes ==> app.todos == old(app.todos)
    ensures app.newTodo == old(app.newTodo)
  {
    app.SelectForDelete(id);
    var request := app.ConfirmDelete();
    if completes {
      assert request == Some(Delete(id));
      app.DeleteComplete(request.value.id);
    }
  }

  /** Scenario: the initial load answers with one record, and the list is exactly that record. */
  method ScenarioLoad()
  {
    var app := new App();
    var milk := Todo(1, "Buy milk", "");
    app.LoadComplete([milk]);
    assert app.todos == [milk];
  }

  /** Scenario: a typed draft is saved and the server answers with id 2; the
      record is appended after the loaded one. */
  method ScenarioCreate()
  {
    var app := new App();
    var milk := Todo(1, "Buy milk", "");
    app.LoadComplete([milk]);
    app.EditTitle("Clean house");
    app.EditDescription("weekly");
    assert !IsWhiteSpace(app.newTodo.title[0]);
    var sent := app.AddNewTodo();
    assert sent == Some(Post(TodoCreate("Clean house", "weekly")));
    assert app.newTodo == EmptyDraft;
    var house := Todo(2, "Clean house", "weekly");
    app.CreateComplete(house);
    assert app.todos == [milk, house];
  }

  /** Scenario: id 2 is picked, the deletion confirmed and answered; the id is
      gone and nothing is selected. */
  method ScenarioDelete()
  {
    var app := new App();
    var milk, house := Todo(1, "Buy milk", ""), Todo(2, "Clean house", "weekly");
    app.LoadComplete([milk, house]);
    app.SelectForDelete(2);
    var deletion := app.ConfirmDelete();
    assert deletion == Some(Delete(2)) && app.todoToDelete == None;
    app.DeleteComplete(2);
    assert app.todos == [milk];
  }

  /** Scenario: a whitespace-only title sends nothing; the list and the draft
      stay as they were. */
  method ScenarioBlankTitle()
  {
    var app := new App();
    app.EditTitle("   ");
    app.EditDescription("weekly");
    var refused := app.AddNewTodo();
    assert refused == None;
    assert app.newTodo == TodoCreate("   ", "weekly");
    assert app.todos == [];
  }
}
