/**
 * The static catalogue the screens join against: books and categories
 * (careers). Their contents are data outside this model; only their shape
 * and the lookups the screens perform are modelled.
 */
module Catalog {
  import opened Common
  import opened Store

  datatype Book = Book(id: BookId, title: string, author: string, category: string)

  datatype Category = Category(id: string, name: string)

  /** `books.find((b) => b.id === bookId)`. */
  function FindBook(books: seq<Book>, bookId: BookId): (r: Option<Book>)
    ensures r.None? <==> forall b :: b in books ==> b.id != bookId
    ensures r.Some? ==> r.value in books && r.value.id == bookId
    ensures r.Some? ==> forall b :: b in books && b.id == bookId && UniqueIds(books) ==> b == r.value
    ensures r.Some? ==> exists i :: 0 <= i < |books| && books[i] == r.value && forall j :: 0 <= j < i ==> books[j].id != bookId
  {
    var found := Find(books, (b: Book) => b.id == bookId);
    if found.Some? then
      var i := FirstIndex(books, (b: Book) => b.id == bookId).value;
      assert found.value == books[i];
      found
    else
      assert forall i :: 0 <= i < |books| ==> books[i].id != bookId;
      found
  }

  /** No two catalogue entries share an id. */
  ghost predicate UniqueIds(books: seq<Book>) {
    forall i, j :: 0 <= i < |books| && 0 <= j < |books| && books[i].id == books[j].id ==> i == j
  }
}
