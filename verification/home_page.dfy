/**
 * The home page: the catalogue search, the three sections the results are
 * cut into, and the per-career tiles.
 */
module HomePage {
  import opened Common
  import opened Catalog
  import InventoryManagement

  /** Case-folded substring of the title or of the author. */
  predicate MatchesQuery(b: Book, query: string) {
    ContainsFolded(b.title, query) || ContainsFolded(b.author, query)
  }

  /** `filteredBooks`: the whole catalogue for an empty query, else the matching books in catalogue order. */
  function SearchCatalog(books: seq<Book>, query: string): (r: seq<Book>)
    ensures query == "" ==> r == books
    ensures forall b :: b in r <==> b in books && (query == "" || MatchesQuery(b, query))
    ensures Subsequence(r, books)
  {
    if query == "" then
      assert Subsequence(books, books) by { SubsequenceRefl(books); }
      books
    else Filter(books, (b: Book) => MatchesQuery(b, query))
  }

  lemma {:induction false} SubsequenceRefl(s: seq<Book>)
    ensures Subsequence(s, s)
    decreases |s|
  {
    if s != [] {
      SubsequenceRefl(s[1..]);
    }
  }

  /**
   * The home search and the inventory screen's search with every career
   * selected list the same books: the early return on an empty query is
   * what the filter would give anyway.
   */
  lemma SearchAgreesWithInventory(books: seq<Book>, query: string)
    ensures SearchCatalog(books, query) == InventoryManagement.FilterBooks(books, query, InventoryManagement.CategoryAll)
  {
    if query == "" {
      InventoryManagement.EmptySearchListsCatalogue(books);
    } else {
      FilterExt(books,
        (b: Book) => MatchesQuery(b, query),
        (b: Book) => InventoryManagement.MatchesBook(b, query, InventoryManagement.CategoryAll));
    }
  }

  /** `slice(0, 6)`, `slice(6, 9)` and `slice(9)`, with JavaScript's clamping to the length. */
  function Sections(list: seq<Book>): (r: (seq<Book>, seq<Book>, seq<Book>))
    ensures r.0 + r.1 + r.2 == list
    ensures |r.0| == Min(6, |list|)
    ensures |r.1| == Min(3, Max(0, |list| - 6))
    ensures r.2 != [] ==> |r.0| == 6 && |r.1| == 3
  {
    var a := Min(6, |list|);
    var b := Min(9, |list|);
    assert list[..a] + list[a..b] + list[b..] == list;
    (list[..a], list[a..b], list[b..])
  }

  /** Every result appears in exactly one section, at its own place. */
  lemma SectionsPartition(list: seq<Book>, i: nat)
    requires i < |list|
    ensures var (d, m, c) := Sections(list);
            (i < 6 ==> d[i] == list[i]) && (6 <= i < 9 ==> m[i - 6] == list[i]) && (9 <= i ==> c[i - 9] == list[i])
  {
  }

  /** A career tile: how many catalogue books carry the career's id (the search does not enter), and the label. */
  function TileCount(books: seq<Book>, category: Category): (r: nat)
    ensures r <= |books|
    ensures r == 0 <==> forall b :: b in books ==> b.category != category.id
    ensures r == CareerCount(books, category.id)
  {
    var f := Filter(books, InCareer(category.id));
    assert f != [] ==> f[0] in f;
    CareerFilterCount(books, category.id);
    |f|
  }

  /** The tile's filter test: `book.category === category.id`. */
  function InCareer(id: string): Book -> bool {
    (b: Book) => b.category == id
  }

  /** Reference count: the catalogue books carrying career `id`, counted book by book. */
  function CareerCount(books: seq<Book>, id: string): nat {
    if books == [] then 0 else (if books[0].category == id then 1 else 0) + CareerCount(books[1..], id)
  }

  /** The tile's filter keeps as many books as the book-by-book count of the career. */
  lemma {:induction false} CareerFilterCount(books: seq<Book>, id: string)
    ensures |Filter(books, InCareer(id))| == CareerCount(books, id)
    decreases |books|
  {
    if books != [] {
      FilterCons(books, InCareer(id));
      CareerFilterCount(books[1..], id);
    }
  }

  function TileLabel(count: nat): (r: string)
    ensures r == "libro" <==> count == 1
    ensures r == "libro" || r == "libros"
  {
    if count == 1 then "libro" else "libros"
  }

  /** The career ids of the tiles. */
  function CategoryIds(categories: seq<Category>): (r: set<string>)
    ensures forall c :: c in categories ==> c.id in r
    ensures forall id :: id in r ==> exists c :: c in categories && c.id == id
  {
    set c | c in categories :: c.id
  }

  /** Sum of the tile counts. */
  function TileTotal(books: seq<Book>, categories: seq<Category>): nat
    decreases |categories|
  {
    if categories == [] then 0 else TileCount(books, categories[0]) + TileTotal(books, categories[1..])
  }

  predicate DistinctIds(categories: seq<Category>) {
    forall i, j :: 0 <= i < j < |categories| ==> categories[i].id != categories[j].id
  }

  /**
   * With distinct career ids the tiles together count every book whose career
   * has a tile exactly once; books of other careers are not counted.
   */
  lemma {:induction false} TilesCountEachBookOnce(books: seq<Book>, categories: seq<Category>)
    requires DistinctIds(categories)
    ensures TileTotal(books, categories) == |Filter(books, (b: Book) => b.category in CategoryIds(categories))|
    decreases |categories|
  {
    if categories == [] {
      FilterNone(books, (b: Book) => b.category in CategoryIds(categories));
    } else {
      var c := categories[0];
      var rest := categories[1..];
      HeadTile(categories);
      TilesCountEachBookOnce(books, rest);
      FilterDisjointUnion(books,
        (b: Book) => b.category == c.id,
        (b: Book) => b.category in CategoryIds(rest),
        (b: Book) => b.category in CategoryIds(categories));
    }
  }

  /** The first tile's id is not among the others', which keep distinct ids. */
  lemma HeadTile(categories: seq<Category>)
    requires DistinctIds(categories) && categories != []
    ensures DistinctIds(categories[1..])
    ensures categories[0].id !in CategoryIds(categories[1..])
    ensures CategoryIds(categories) == {categories[0].id} + CategoryIds(categories[1..])
  {
    var rest := categories[1..];
    forall k | 0 <= k < |rest|
      ensures rest[k].id != categories[0].id
    {
      assert rest[k] == categories[k + 1];
    }
    assert categories == [categories[0]] + rest;
  }
}
