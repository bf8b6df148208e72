/** The three list transformations the client applies to its local copy of
    the catalogue: replace-by-id after an update, append after a create,
    and filter-by-id after a delete. */
module BookList {
  import opened Types

  /** True when some entry of `books` carries the key `id`. */
  predicate HasId(books: seq<Book>, id: int) {
    exists i :: 0 <= i < |books| && books[i].id == id
  }

  /** `books.map(book => book.id === id ? data : book)` */
  function ReplaceById(books: seq<Book>, id: int, data: Book): (r: seq<Book>)
    ensures |r| == |books|
  {
    if books == [] then []
    else [if books[0].id == id then data else books[0]] + ReplaceById(books[1..], id, data)
  }

  /** `books.filter(book => book.id !== id)` */
  function RemoveById(books: seq<Book>, id: int): (r: seq<Book>)
    ensures !HasId(r, id)
  {
    if books == [] then []
    else if books[0].id == id then RemoveById(books[1..], id)
    else [books[0]] + RemoveById(books[1..], id)
  }

  /** `[...books, data]` */
  function Append(books: seq<Book>, data: Book): (r: seq<Book>)
    ensures |r| == |books| + 1
    ensures r[..|books|] == books && r[|books|] == data
  {
    books + [data]
  }

  // ---------------------------------------------------------------------
  // Replace by id

  /** Replacing keeps the length; each position holds the response when its
      old entry had the key, and its old entry otherwise. */
  lemma {:induction false} ReplaceByIdAt(books: seq<Book>, id: int, data: Book)
    ensures |ReplaceById(books, id, data)| == |books|
    ensures forall i :: 0 <= i < |books| ==>
              ReplaceById(books, id, data)[i] == (if books[i].id == id then data else books[i])
  {
    if books != [] {
      ReplaceByIdAt(books[1..], id, data);
      var r := ReplaceById(books, id, data);
      forall i | 0 <= i < |books|
        ensures r[i] == (if books[i].id == id then data else books[i])
      {
        if i > 0 {
          assert r[i] == ReplaceById(books[1..], id, data)[i - 1];
        }
      }
    }
  }

  /** A key that no entry carries leaves the list as it is. */
  lemma {:induction false} ReplaceByIdMissing(books: seq<Book>, id: int, data: Book)
    requires !HasId(books, id)
    ensures ReplaceById(books, id, data) == books
  {
    ReplaceByIdAt(books, id, data);
  }

  /** Replacing twice with the same response is the same as replacing once. */
  lemma {:induction false} ReplaceByIdIdempotent(books: seq<Book>, id: int, data: Book)
    ensures ReplaceById(ReplaceById(books, id, data), id, data) == ReplaceById(books, id, data)
  {
    var once := ReplaceById(books, id, data);
    ReplaceByIdAt(books, id, data);
    ReplaceByIdAt(once, id, data);
  }

  /** When the response carries the key it replaced (as an update of that
      row returns), the sequence of keys is unchanged. */
  lemma {:induction false} ReplaceByIdKeepsIds(books: seq<Book>, id: int, data: Book)
    requires data.id == id
    ensures |ReplaceById(books, id, data)| == |books|
    ensures forall i :: 0 <= i < |books| ==> ReplaceById(books, id, data)[i].id == books[i].id
  {
    ReplaceByIdAt(books, id, data);
  }

  // ---------------------------------------------------------------------
  // Remove by id

  /** An entry survives the filter exactly when it was in the list and does
      not carry the key; in particular no entry with the key is left. */
  lemma {:induction false} RemoveByIdMembers(books: seq<Book>, id: int)
    ensures forall b :: b in RemoveById(books, id) <==> b in books && b.id != id
    ensures !HasId(RemoveById(books, id), id)
  {
    if books != [] {
      RemoveByIdMembers(books[1..], id);
      assert books == [books[0]] + books[1..];
    }
  }

  /** Every entry without the key survives with all its copies: the filter
      keeps each such value exactly as often as the list held it. */
  lemma {:induction false} RemoveByIdCounts(books: seq<Book>, id: int)
    ensures forall b: Book :: b.id != id ==> multiset(RemoveById(books, id))[b] == multiset(books)[b]
  {
    if books != [] {
      RemoveByIdCounts(books[1..], id);
      assert books == [books[0]] + books[1..];
    }
  }

  /** The filter never grows the list, and keeps its length exactly when no
      entry carries the key. */
  lemma {:induction false} RemoveByIdLength(books: seq<Book>, id: int)
    ensures |RemoveById(books, id)| <= |books|
    ensures |RemoveById(books, id)| == |books| <==> !HasId(books, id)
    ensures !HasId(books, id) ==> RemoveById(books, id) == books
  {
    if books != [] {
      RemoveByIdLength(books[1..], id);
      if books[0].id != id && HasId(books[1..], id) {
        var i :| 0 <= i < |books[1..]| && books[1..][i].id == id;
        assert books[i + 1].id == id;
      }
      if HasId(books, id) && books[0].id != id {
        var i :| 0 <= i < |books| && books[i].id == id;
        assert books[1..][i - 1].id == id;
      }
    }
  }

  /** The filter works entry by entry, so it preserves relative order: the
      survivors of a concatenation are the survivors of each part, in turn. */
  lemma {:induction false} RemoveByIdConcat(a: seq<Book>, b: seq<Book>, id: int)
    ensures RemoveById(a + b, id) == RemoveById(a, id) + RemoveById(b, id)
  {
    if a == [] {
      assert a + b == b;
    } else {
      RemoveByIdConcat(a[1..], b, id);
      assert (a + b)[1..] == a[1..] + b;
    }
  }

  /** Removing the same key a second time changes nothing. */
  lemma {:induction false} RemoveByIdIdempotent(books: seq<Book>, id: int)
    ensures RemoveById(RemoveById(books, id), id) == RemoveById(books, id)
  {
    RemoveByIdMembers(books, id);
    RemoveByIdLength(RemoveById(books, id), id);
  }

  /** `a` is `b` with some entries dropped and the rest in their order. */
  predicate Subsequence(a: seq<Book>, b: seq<Book>)
    decreases |b|
  {
    if a == [] then true
    else if b == [] then false
    else (a[0] == b[0] && Subsequence(a[1..], b[1..])) || Subsequence(a, b[1..])
  }

  /** The survivors of the filter keep their relative order. */
  lemma {:induction false} RemoveByIdSubsequence(books: seq<Book>, id: int)
    ensures Subsequence(RemoveById(books, id), books)
  {
    if books != [] {
      RemoveByIdSubsequence(books[1..], id);
      var r := RemoveById(books, id);
      if books[0].id != id {
        assert r[0] == books[0] && r[1..] == RemoveById(books[1..], id);
      }
    }
  }
}
