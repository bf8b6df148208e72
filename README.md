# Book catalogue client state

A Dafny model of the client side of a small book-catalogue application. The
React component `Books` keeps four pieces of state: the list of books, the
form draft, the book marked for editing, and an error banner. Its event
handlers move that state from one value to the next. The model covers the
initial list load, editing one form field, submitting the form (an update
while a book is marked, an add otherwise, each with a success and a failure
outcome), deleting a book (success or failure), starting an edit, and
cancelling one. It also covers the two values the view computes from the
list: the scrollbar flag and the "book"/"books" label.

Layout:

- `types.dfy` (`Types`): a JavaScript field value (`Text`: `null` or a string,
  with JavaScript truthiness), `Book`, `Option`, and `Response`. A `Response`
  is the settled outcome of one HTTP call: its body, or a failure.
- `book_list.dfy` (`BookList`): the three list transformations as
  functions, with lemmas about them. They are replace-by-id (`map`),
  append (spread) and remove-by-id (`filter`).
- `form_rules.dfy` (`FormRules`): the draft record, the one-field update
  (object spread), and the date rule used when an edit starts. The rule
  keeps the part of the date before its first `'T'`.
- `transitions.dfy` (`Transitions`): the component state as one value, and
  each handler as a function from the old state and the call's outcome to
  the new state. Its lemmas relate several transitions.
- `component.dfy` (`Component`): the component as a class. Its four fields
  are the four state slots, and each handler is a method that assigns them
  in the source's order. Each method is proved to produce exactly the state
  its `Transitions` function gives. A client method at the end plays one
  session (load, edit, save, delete) against these contracts.

Every HTTP call is a parameter of its handler: the outcome the call settled
with. The handlers that make a call also return the request they issued
(`GetAll`, `Post`, `Put`, `Delete`), so the contract can say which branch
called which route.

## Model

| member | source | states |
|---|---|---|
| `BookList.ReplaceById` | Frontend/bookstore-app/src/Books.jsx:40 | `books.map(book => book.id === id ? data : book)`: the result has the list's length; `ReplaceByIdAt` gives its content position by position |
| `BookList.RemoveById` | Frontend/bookstore-app/src/Books.jsx:68 | `books.filter(book => book.id !== id)`: no entry with the key remains; `RemoveByIdMembers`, `RemoveByIdCounts`, `RemoveByIdLength`, `RemoveByIdConcat` and `RemoveByIdSubsequence` characterise the survivors |
| `BookList.Append` | Frontend/bookstore-app/src/Books.jsx:46 | the appended list is one longer, keeps every earlier entry in order, and ends with the response |
| `BookList.ReplaceByIdAt` | Frontend/bookstore-app/src/Books.jsx:39-41 | replace-by-id keeps the length; each position holds the response if its old entry had the key, and its old entry otherwise |
| `BookList.ReplaceByIdMissing` | Frontend/bookstore-app/src/Books.jsx:40 | a key no entry carries leaves the list unchanged |
| `BookList.ReplaceByIdIdempotent` | Frontend/bookstore-app/src/Books.jsx:40 | replacing twice with the same response equals replacing once |
| `BookList.ReplaceByIdKeepsIds` | Frontend/bookstore-app/src/Books.jsx:39-41 | when the response carries the replaced key, the sequence of keys is unchanged |
| `BookList.RemoveByIdMembers` | Frontend/bookstore-app/src/Books.jsx:68 | an entry survives the filter iff it was listed and does not carry the key; no entry with the key remains |
| `BookList.RemoveByIdCounts` | Frontend/bookstore-app/src/Books.jsx:68 | every value without the key survives the filter as many times as the list held it |
| `BookList.RemoveByIdLength` | Frontend/bookstore-app/src/Books.jsx:68 | the filter never grows the list; the length is kept iff no entry carries the key, and then the list is unchanged |
| `BookList.RemoveByIdConcat` | Frontend/bookstore-app/src/Books.jsx:68 | the filter distributes over concatenation, so survivors keep their relative order |
| `BookList.RemoveByIdSubsequence` | Frontend/bookstore-app/src/Books.jsx:68 | the filtered list is a subsequence of the old list |
| `BookList.RemoveByIdIdempotent` | Frontend/bookstore-app/src/Books.jsx:68 | removing the same key twice equals removing it once |
| `FormRules.EmptyDraft` | Frontend/bookstore-app/src/Books.jsx:6-12 | every field of the initial draft is `""` |
| `FormRules.SetField` | Frontend/bookstore-app/src/Books.jsx:26 | the named field takes the typed value; every other field keeps its old value |
| `FormRules.SetFieldTwice` | Frontend/bookstore-app/src/Books.jsx:26 | setting one field twice keeps only the second value |
| `FormRules.DatePrefix` | Frontend/bookstore-app/src/Books.jsx:82 | `s.split("T")[0]`: the result is a prefix of the string with no `'T'`; `DatePrefixSpec` and `DatePrefixUnique` characterise it in both directions |
| `FormRules.DatePrefixSpec` | Frontend/bookstore-app/src/Books.jsx:82 | `split("T")[0]` is a prefix of the string, holds no `'T'`, and ends at the end of the string or just before its first `'T'`; with no `'T'` it is the whole string |
| `FormRules.DatePrefixUnique` | Frontend/bookstore-app/src/Books.jsx:82 | any string with those three properties is that prefix |
| `FormRules.DatePrefixIdempotent` | Frontend/bookstore-app/src/Books.jsx:82 | applying the rule to its own result returns it unchanged |
| `FormRules.NormalizeDate` | Frontend/bookstore-app/src/Books.jsx:81-83 | a truthy date becomes its `'T'`-free prefix (the whole date when it has no `'T'`); a `null` or empty date becomes `""` |
| `FormRules.DraftOf` | Frontend/bookstore-app/src/Books.jsx:77-85 | the draft built for an edit copies title, author, genre and description verbatim; its date is a string with no `'T'`, a prefix of a truthy date, and `""` for a `null` or empty one (`NormalizeDate` and `Transitions.StartEdit` state the rule in full) |
| `FormRules.NormalizeDateIdempotent` | Frontend/bookstore-app/src/Books.jsx:81-83 | normalising a normalised date changes nothing |
| `Transitions.Initial` | Frontend/bookstore-app/src/Books.jsx:5-14 | the first state has no books, an all-empty draft, no banner and no marked book |
| `Transitions.Load` | Frontend/bookstore-app/src/Books.jsx:17-22 | a successful fetch replaces the list with the response; a failed one changes nothing; draft, banner and marker are untouched |
| `Transitions.Change` | Frontend/bookstore-app/src/Books.jsx:25-27 | only the named draft field changes; the list, banner and marker are untouched |
| `Transitions.SubmitRequest` | Frontend/bookstore-app/src/Books.jsx:33-47 | submit issues a put of the draft to the marked book's id iff a book is marked, and a post of the draft otherwise |
| `Transitions.Submit` | Frontend/bookstore-app/src/Books.jsx:30-62 | on success: an update replaces exactly the entries with the marked key at the same length, an add appends the response after all old entries, and then the draft is all `""`, the marker is cleared and the banner is `""`; on failure the banner shows the save-failure text and list, draft and marker are unchanged, so the book stays marked |
| `Transitions.DeleteBook` | Frontend/bookstore-app/src/Books.jsx:65-72 | on success no entry with the key remains, every other value survives with all its copies (multiset counts equal), the survivors are a subsequence of the old list, the list never grows, and an absent key leaves it unchanged; draft, marker and banner are untouched even if the deleted book was marked; a failed delete changes nothing |
| `Transitions.StartEdit` | Frontend/bookstore-app/src/Books.jsx:75-86 | the book is marked; title, author, genre and description are copied verbatim; the date follows the `'T'` rule; list and banner are untouched |
| `Transitions.CancelEdit` | Frontend/bookstore-app/src/Books.jsx:174-183 | the marker is cleared and every draft field is `""`; list and banner are untouched |
| `Transitions.ShowScrollbar` | Frontend/bookstore-app/src/Books.jsx:89 | `books.length > 3`; `Component.Books.ShowScrollbar` states it over the component's list, and `ScrollbarAfterAdd` and `ScrollbarAfterDelete` relate it to the transitions |
| `Transitions.CountLabel` | Frontend/bookstore-app/src/Books.jsx:199 | the label is "book" iff exactly one book is listed, and "books" otherwise |
| `Transitions.DeleteIdempotent` | Frontend/bookstore-app/src/Books.jsx:65-72 | two successful deletes of one key leave the same state as one |
| `Transitions.UpdateKeepsIds` | Frontend/bookstore-app/src/Books.jsx:39-42 | an update whose response carries the marked key keeps the keys in order, so the count label and scrollbar do not change |
| `Transitions.ResubmitAfterUpdate` | Frontend/bookstore-app/src/Books.jsx:39-41 | applying the same update response to the already-updated list leaves it as one application does |
| `Transitions.ModeMachine` | Frontend/bookstore-app/src/Books.jsx:33-86 | successful submit returns to add mode, failed submit keeps the mode, start edit enters edit mode, and delete, field change and load keep the mode; cancel also returns to add mode (lines 174-183) |
| `Transitions.ErrorValidPreserved` | Frontend/bookstore-app/src/Books.jsx:57-60 | every transition keeps the banner either empty or showing the one save-failure text |
| `Transitions.ScrollbarAfterAdd` | Frontend/bookstore-app/src/Books.jsx:89 | after a successful add the scrollbar shows iff at least three books were listed before |
| `Transitions.ScrollbarAfterDelete` | Frontend/bookstore-app/src/Books.jsx:89 | a delete never makes the scrollbar appear |
| `Component.Books.constructor` | Frontend/bookstore-app/src/Books.jsx:5-14 | a new component is in the initial state |
| `Component.Books.Load` | Frontend/bookstore-app/src/Books.jsx:17-22 | issues the list fetch and moves to the state `Transitions.Load` gives |
| `Component.Books.HandleChange` | Frontend/bookstore-app/src/Books.jsx:25-27 | moves to the state `Transitions.Change` gives |
| `Component.Books.HandleSubmit` | Frontend/bookstore-app/src/Books.jsx:30-62 | issues the put or post `SubmitRequest` names, moves to the state `Transitions.Submit` gives, and keeps the banner invariant |
| `Component.Books.HandleDelete` | Frontend/bookstore-app/src/Books.jsx:65-72 | issues the delete of the id and moves to the state `Transitions.DeleteBook` gives |
| `Component.Books.HandleEditClick` | Frontend/bookstore-app/src/Books.jsx:75-86 | moves to the state `Transitions.StartEdit` gives |
| `Component.Books.CancelEdit` | Frontend/bookstore-app/src/Books.jsx:174-183 | moves to the state `Transitions.CancelEdit` gives |
| `Component.Books.ShowScrollbar` | Frontend/bookstore-app/src/Books.jsx:89 | the flag, defined by `Transitions.ShowScrollbar` on the component's state, holds iff more than three books are listed |

## Left out

- Backend/server.js is not part of this model. It registers Express routes over a PostgreSQL pool and runs fixed SQL, with no logic of its own. Ordering by id, `RETURNING *` and the absent delete route all belong to the store or the framework.
- The response of a call is an input. The model does not relate it to the request: it does not say that a create echoes the draft with a fresh id, or that an update returns the written row.
- An update for an id the store no longer holds gets an empty body from the service. The model treats every successful response as a `Book`, so this non-book body is not modelled.
- The service registers no delete route, so a real delete call always fails. The model keeps both outcomes of a delete, as the client code handles both.
- HTTP calls, their URLs and `console.error` logging are left out. Each handler is one atomic step, so overlapping submits and the stale `books` captured before an `await` are not modelled.
- JSX markup, styling, the emoji text, and the locale-dependent `toLocaleDateString` display of dates are left out.
- A publication date is an opaque string. Nothing beyond the split at the first `'T'` is interpreted.
- Field names outside the five form inputs cannot reach `handleChange`, so `FieldName` has exactly those five values.
- The form's `required` attributes (Books.jsx lines 127 and 136) stop the browser from submitting an empty title or author. The cancel button is rendered only while a book is marked (line 170). `Transitions.Submit`, `Transitions.SubmitRequest` and `Transitions.CancelEdit` are nonetheless defined on every state. This over-approximates what the page allows, and every property proved for them holds in the states the page can reach.
