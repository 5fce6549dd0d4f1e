/**
 * The earlier snapshot of the same component under buscador-libros/: the same
 * state and the same `bookSearch` handler, but no form and no input handler,
 * so the search text keeps its initial empty value.
 */
module BuscadorLibros {
  import opened RecentSearches
  import opened SearchState

  class App {
    var searchTerm: string
    var books: seq<Book>
    var categories: map<string, seq<Book>>
    var recentBooks: seq<Entry>

    /** The component state as a value. */
    ghost function State(): SearchState.State
      reads this
    {
      SearchState.State(searchTerm, books, categories, recentBooks)
    }

    /**
     * Nothing in this snapshot calls `setSearchTerm`, so the search text stays
     * empty and so does the title of every recorded search.
     */
    ghost predicate Valid()
      reads this
    {
      Invariant(State()) && searchTerm == "" &&
      forall e :: e in recentBooks ==> e.title == ""
    }

    /** The initial state, identical to the later version's. */
    constructor ()
      ensures State() == Initial
      ensures Valid()
    {
      searchTerm := "";
      books := [];
      categories := SeedCategories;
      recentBooks := [];
    }

    /** `bookSearch`, as in the later version; every entry of the log keeps the empty title. */
    method BookSearch(outcome: Outcome, now: int)
      requires Valid()
      modifies this`books, this`recentBooks
      ensures State() == SearchState.BookSearch(old(State()), outcome, now)
      ensures outcome.Success? ==> recentBooks[0] == Entry("", now)
      ensures forall e :: e in recentBooks ==> e.title == ""
      ensures Valid()
    {
      match outcome {
        case Failure =>
        case Success(items) =>
          var results := items.GetOr([]);
          books := results;
          var newRecentBooks := PushRecent(recentBooks, searchTerm, now);
          recentBooks := newRecentBooks;
      }
    }
  }
}
