/** The `Books` component's state as one value, and each event handler as a
    function from the state before to the state after. The HTTP call a
    handler awaits is a parameter: its settled outcome. */
module Transitions {
  import opened Types
  import opened BookList
  import opened FormRules

  /** The four `useState` slots of the component. */
  datatype State = State(
    books: seq<Book>,
    form: Draft,
    error: string,
    editing: Option<Book>)

  /** The banner text a failed save shows. */
  const SaveFailedMessage: string := "Failed to save book. Please try again."

  /** The HTTP call a handler issues. */
  datatype Request =
    | GetAll
    | Post(body: Draft)
    | Put(id: int, body: Draft)
    | Delete(id: int)

  /** The form is in edit mode while a book is marked for editing, and in add
      mode otherwise. */
  datatype Mode = Adding | Editing

  function ModeOf(s: State): Mode {
    if s.editing.Some? then Editing else Adding
  }

  /** The banner is either hidden or shows the one save-failure message. */
  predicate ErrorValid(s: State) {
    s.error == "" || s.error == SaveFailedMessage
  }

  /** The state on first render: no books, an empty draft, no banner, add mode. */
  function Initial(): (s: State)
    ensures s.books == [] && s.error == "" && s.editing == None
    ensures forall f :: Get(s.form, f) == Str("")
  {
    State([], EmptyDraft(), "", None)
  }

  /** The effect run on mount: the fetched list replaces the local one; a
      failed fetch is only logged. */
  function Load(s: State, resp: Response<seq<Book>>): (r: State)
    ensures resp.Success? ==> r.books == resp.data
    ensures resp.Failure? ==> r == s
    ensures r.form == s.form && r.error == s.error && r.editing == s.editing
  {
    match resp
    case Success(data) => s.(books := data)
    case Failure => s
  }

  /** `handleChange`: one input of the draft takes the typed value. */
  function Change(s: State, f: FieldName, value: string): (r: State)
    ensures Get(r.form, f) == Str(value)
    ensures forall g :: g != f ==> Get(r.form, g) == Get(s.form, g)
    ensures r.books == s.books && r.error == s.error && r.editing == s.editing
  {
    s.(form := SetField(s.form, f, value))
  }

  /** The call `handleSubmit` makes: an update of the marked book's row when
      editing, a create otherwise; the body is the draft either way. */
  function SubmitRequest(s: State): (req: Request)
    ensures s.editing.Some? <==> req.Put?
    ensures s.editing.Some? ==> req == Put(s.editing.value.id, s.form)
    ensures s.editing.None? ==> req == Post(s.form)
  {
    if s.editing.Some? then Put(s.editing.value.id, s.form) else Post(s.form)
  }

  /** `handleSubmit` once its call has settled. On success the response
      replaces the marked book's entries (update) or is appended (add), and
      the form returns to an empty add-mode draft with no banner. On failure
      only the banner changes: in particular a failed update keeps the book
      marked for editing. */
  function Submit(s: State, resp: Response<Book>): (r: State)
    ensures resp.Failure? ==>
              r.books == s.books && r.form == s.form && r.editing == s.editing
              && r.error == SaveFailedMessage
    ensures resp.Success? ==> r.editing == None && r.error == ""
    ensures resp.Success? ==> forall f :: Get(r.form, f) == Str("")
    ensures resp.Success? && s.editing.None? ==>
              |r.books| == |s.books| + 1 && r.books[..|s.books|] == s.books
              && r.books[|s.books|] == resp.data
    ensures resp.Success? && s.editing.Some? ==>
              |r.books| == |s.books|
              && forall i :: 0 <= i < |s.books| ==>
                   r.books[i] == (if s.books[i].id == s.editing.value.id then resp.data else s.books[i])
  {
    match resp
    case Failure => s.(error := SaveFailedMessage)
    case Success(data) =>
      var saved :=
        if s.editing.Some? then
          ReplaceByIdAt(s.books, s.editing.value.id, data);
          s.(books := ReplaceById(s.books, s.editing.value.id, data), editing := None)
        else
          s.(books := Append(s.books, data));
      saved.(form := EmptyDraft(), error := "")
  }

  /** `handleDelete(id)` once its call has settled. On success no entry with
      the key is left, every other entry survives with all its copies and in
      its old order, an absent key leaves the list as it was, and the draft, the marker and the banner are untouched
      even when the deleted book was the one being edited. A failed delete is
      only logged. */
  function DeleteBook(s: State, id: int, resp: Response<()>): (r: State)
    ensures resp.Failure? ==> r == s
    ensures resp.Success? ==>
              !HasId(r.books, id) && |r.books| <= |s.books|
              && (forall b :: b in r.books <==> b in s.books && b.id != id)
              && Subsequence(r.books, s.books)
              && (forall b: Book :: b.id != id ==> multiset(r.books)[b] == multiset(s.books)[b])
    ensures resp.Success? && !HasId(s.books, id) ==> r.books == s.books
    ensures r.form == s.form && r.editing == s.editing && r.error == s.error
  {
    match resp
    case Failure => s
    case Success(_) =>
      RemoveByIdMembers(s.books, id);
      RemoveByIdLength(s.books, id);
      RemoveByIdSubsequence(s.books, id);
      RemoveByIdCounts(s.books, id);
      s.(books := RemoveById(s.books, id))
  }

  /** `handleEditClick(book)`: the book is marked for editing and the draft
      is filled from it, its date cut before the first `'T'`. */
  function StartEdit(s: State, b: Book): (r: State)
    ensures r.editing == Some(b)
    ensures r.form.title == b.title && r.form.author == b.author
    ensures r.form.genre == b.genre && r.form.description == b.description
    ensures r.form.publicationDate.Str? && 'T' !in r.form.publicationDate.s
    ensures b.publicationDate.Truthy() ==>
              r.form.publicationDate.s <= b.publicationDate.s
              && (|r.form.publicationDate.s| == |b.publicationDate.s|
                  || b.publicationDate.s[|r.form.publicationDate.s|] == 'T')
    ensures b.publicationDate.Truthy() && 'T' !in b.publicationDate.s ==>
              r.form.publicationDate == b.publicationDate
    ensures !b.publicationDate.Truthy() ==> r.form.publicationDate == Str("")
    ensures r.books == s.books && r.error == s.error
  {
    s.(editing := Some(b), form := DraftOf(b))
  }

  /** The cancel button: the marker is cleared and the draft emptied, with no
      call made; the list and the banner are untouched. */
  function CancelEdit(s: State): (r: State)
    ensures r.editing == None
    ensures forall f :: Get(r.form, f) == Str("")
    ensures r.books == s.books && r.error == s.error
  {
    s.(editing := None, form := EmptyDraft())
  }

  /** `showScrollbar`: the list scrolls once it holds more than three books. */
  function ShowScrollbar(s: State): bool {
    |s.books| > 3
  }

  /** The noun after the count in the list header. */
  function CountLabel(s: State): (r: string)
    ensures r == "book" <==> |s.books| == 1
    ensures r == "books" <==> |s.books| != 1
  {
    if |s.books| == 1 then "book" else "books"
  }

  // ---------------------------------------------------------------------
  // Properties relating several transitions

  /** Deleting the same key twice in a row is the same as deleting it once. */
  lemma DeleteIdempotent(s: State, id: int)
    ensures DeleteBook(DeleteBook(s, id, Success(())), id, Success(())) == DeleteBook(s, id, Success(()))
  {
    RemoveByIdIdempotent(s.books, id);
  }

  /** A successful update with a response keyed as the marked book (which is
      what the update route returns for an existing row) keeps the sequence
      of keys, and so the list header and the scrollbar. */
  lemma UpdateKeepsIds(s: State, data: Book)
    requires s.editing.Some? && data.id == s.editing.value.id
    ensures |Submit(s, Success(data)).books| == |s.books|
    ensures forall i :: 0 <= i < |s.books| ==> Submit(s, Success(data)).books[i].id == s.books[i].id
    ensures CountLabel(Submit(s, Success(data))) == CountLabel(s)
    ensures ShowScrollbar(Submit(s, Success(data))) == ShowScrollbar(s)
  {
  }

  /** Applying the same update response to the already-updated list leaves
      it as one application does. */
  lemma ResubmitAfterUpdate(s: State, data: Book)
    requires s.editing.Some?
    ensures var once := Submit(s, Success(data));
            Submit(s.(books := once.books), Success(data)).books == once.books
  {
    ReplaceByIdIdempotent(s.books, s.editing.value.id, data);
  }

  /** The form's mode changes only as the source's buttons say: a successful
      submit and a cancel return to add mode, starting an edit enters edit
      mode, and every other outcome keeps the mode. */
  lemma ModeMachine(s: State, f: FieldName, v: string, b: Book, id: int,
                    saved: Response<Book>, deleted: Response<()>, loaded: Response<seq<Book>>)
    ensures saved.Success? ==> ModeOf(Submit(s, saved)) == Adding
    ensures saved.Failure? ==> ModeOf(Submit(s, saved)) == ModeOf(s)
    ensures ModeOf(CancelEdit(s)) == Adding
    ensures ModeOf(StartEdit(s, b)) == Editing
    ensures ModeOf(DeleteBook(s, id, deleted)) == ModeOf(s)
    ensures ModeOf(Change(s, f, v)) == ModeOf(s)
    ensures ModeOf(Load(s, loaded)) == ModeOf(s)
  {
  }

  /** Every transition keeps the banner to its two possible texts. */
  lemma ErrorValidPreserved(s: State, f: FieldName, v: string, b: Book, id: int,
                            saved: Response<Book>, deleted: Response<()>, loaded: Response<seq<Book>>)
    requires ErrorValid(s)
    ensures ErrorValid(Submit(s, saved)) && ErrorValid(CancelEdit(s))
    ensures ErrorValid(StartEdit(s, b)) && ErrorValid(DeleteBook(s, id, deleted))
    ensures ErrorValid(Change(s, f, v)) && ErrorValid(Load(s, loaded))
  {
  }

  /** A successful add shows the scrollbar exactly when three or more books
      were listed before it. */
  lemma ScrollbarAfterAdd(s: State, data: Book)
    requires s.editing.None?
    ensures ShowScrollbar(Submit(s, Success(data))) <==> |s.books| >= 3
  {
  }

  /** A delete never makes the scrollbar appear. */
  lemma ScrollbarAfterDelete(s: State, id: int, resp: Response<()>)
    ensures ShowScrollbar(DeleteBook(s, id, resp)) ==> ShowScrollbar(s)
  {
  }
}
