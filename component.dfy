/** The `Books` component as an object: its four state slots are fields, and
    each event handler is a method that updates them through the same steps
    as the source's setters. Each method is proved to move the object from
    `old(State())` to the state the matching transition function gives. */
module Component {
  import opened Types
  import opened BookList
  import opened FormRules
  import opened Transitions

  class Books {
    var books: seq<Book>
    var form: Draft
    var error: string
    var editingBook: Option<Book>

    /** The abstract value of the component. */
    function State(): State
      reads this
    {
      Transitions.State(books, form, error, editingBook)
    }

    /** First render: the initial values passed to `useState`. */
    constructor ()
      ensures State() == Initial()
    {
      books := [];
      form := EmptyDraft();
      error := "";
      editingBook := None;
    }

    /** The mount effect: `GET /books`, then `setBooks(res.data)`. */
    method Load(resp: Response<seq<Book>>) returns (req: Request)
      modifies this
      ensures req == GetAll
      ensures State() == Transitions.Load(old(State()), resp)
    {
      req := GetAll;
      if resp.Success? {
        books := resp.data;
      }
    }

    /** `handleChange`: `setForm({ ...form, [name]: value })`. */
    method HandleChange(f: FieldName, value: string)
      modifies this
      ensures State() == Change(old(State()), f, value)
    {
      form := SetField(form, f, value);
    }

    /** `handleSubmit`: put or post the draft, then merge the response into
        the list and reset the form, or show the banner on failure. */
    method HandleSubmit(resp: Response<Book>) returns (req: Request)
      modifies this
      ensures req == SubmitRequest(old(State()))
      ensures State() == Submit(old(State()), resp)
      ensures ErrorValid(old(State())) ==> ErrorValid(State())
    {
      if editingBook.Some? {
        req := Put(editingBook.value.id, form);
        if resp.Failure? {
          error := SaveFailedMessage;
          return;
        }
        books := ReplaceById(books, editingBook.value.id, resp.data);
        editingBook := None;
      } else {
        req := Post(form);
        if resp.Failure? {
          error := SaveFailedMessage;
          return;
        }
        books := Append(books, resp.data);
      }
      form := EmptyDraft();
      error := "";
    }

    /** `handleDelete(id)`: delete the row, then filter it out of the list;
        a failure is only logged. */
    method HandleDelete(id: int, resp: Response<()>) returns (req: Request)
      modifies this
      ensures req == Delete(id)
      ensures State() == DeleteBook(old(State()), id, resp)
    {
      req := Delete(id);
      if resp.Success? {
        books := RemoveById(books, id);
      }
    }

    /** `handleEditClick(book)`: mark the book and fill the draft from it. */
    method HandleEditClick(b: Book)
      modifies this
      ensures State() == StartEdit(old(State()), b)
    {
      editingBook := Some(b);
      form := DraftOf(b);
    }

    /** The cancel button's inline handler. */
    method CancelEdit()
      modifies this
      ensures State() == Transitions.CancelEdit(old(State()))
    {
      editingBook := None;
      form := EmptyDraft();
    }

    /** `showScrollbar`, computed on each render. */
    function ShowScrollbar(): (r: bool)
      reads this
      ensures r <==> |books| > 3
    {
      Transitions.ShowScrollbar(State())
    }
  }

  /** A session driven through the component: load two books, edit the
      first, save it, then delete the second. The saved response replaces
      the first entry in place, the form is back in add mode, and the list
      ends with the edited book alone. */
  method EditThenDelete(first: Book, second: Book, saved: Book)
    requires first.id != second.id && saved.id == first.id
  {
    var c := new Books();
    var _ := c.Load(Success([first, second]));
    c.HandleEditClick(first);
    var req := c.HandleSubmit(Success(saved));
    assert req == Put(first.id, DraftOf(first));
    assert c.books == [saved, second];
    assert c.editingBook == None && c.error == "";
    var _ := c.HandleDelete(second.id, Success(()));
    assert [saved, second][1..] == [second] && [second][1..] == [];
    assert RemoveById([second], second.id) == [];
    assert RemoveById([saved, second], second.id) == [saved];
    assert c.books == [saved];
    assert !c.ShowScrollbar() && CountLabel(c.State()) == "book";
  }
}
