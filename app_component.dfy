/**
 * The `App` component of the progressive web app: four pieces of state, the
 * input handler that stores the search text, the `bookSearch` handler, and the
 * form submission that the disabled button guards.
 */
module AppComponent {
  import opened Wrappers
  import opened RecentSearches
  import opened SearchState
  import opened SearchForm

  class App {
    var searchTerm: string
    var books: seq<Book>
    var categories: map<string, seq<Book>>
    var recentBooks: seq<Entry>

    /** The component state as a value. */
    ghost function State(): SearchState.State
      reads this
    {
      SearchState.State(searchTerm, books, categories, recentBooks)
    }

    ghost predicate Valid()
      reads this
    {
      Invariant(State())
    }

    /** The initial state: empty search text, no results, seven empty genres, no recent searches. */
    constructor ()
      ensures State() == Initial
      ensures Valid()
    {
      searchTerm := "";
      books := [];
      categories := SeedCategories;
      recentBooks := [];
      new;
      InitialState();
    }

    /** The input's change handler: the search text becomes the box's value and nothing else changes. */
    method SetSearchTerm(value: string)
      requires Valid()
      modifies this`searchTerm
      ensures State() == old(State()).(searchTerm := value)
      ensures Valid()
    {
      searchTerm := value;
    }

    /**
     * `bookSearch`: on success the results and the recent log are overwritten;
     * on failure the error is only logged and the state is left alone.
     */
    method BookSearch(outcome: Outcome, now: int)
      requires Valid()
      modifies this`books, this`recentBooks
      ensures State() == SearchState.BookSearch(old(State()), outcome, now)
      ensures Valid()
    {
      match outcome {
        case Failure =>
        case Success(items) =>
          var results := items.GetOr([]);
          books := results;
          var newRecentBooks := PushRecent(recentBooks, searchTerm, now);
          recentBooks := newRecentBooks;
      }
    }

    /**
     * Submitting the form: the button is disabled while the trimmed search
     * text is empty, and a form whose default button is disabled is not
     * submitted, so `bookSearch` runs only when `CanSubmit` holds.
     */
    method Submit(outcome: Outcome, now: int) returns (submitted: bool)
      requires Valid()
      modifies this`books, this`recentBooks
      ensures submitted == CanSubmit(old(searchTerm))
      ensures submitted ==> State() == SearchState.BookSearch(old(State()), outcome, now)
      ensures !submitted ==> State() == old(State())
      ensures Valid()
    {
      submitted := CanSubmit(searchTerm);
      if submitted {
        BookSearch(outcome, now);
      }
    }
  }

  /** Two successful searches for the same text leave two entries for it, newest first. */
  method SearchTwice(q: string, t1: int, t2: int, items: Option<seq<Book>>) returns (log: seq<Entry>)
    ensures |log| == 2 && log[0] == Entry(q, t2) && log[1] == Entry(q, t1)
  {
    var app := new App();
    app.SetSearchTerm(q);
    app.BookSearch(Success(items), t1);
    app.BookSearch(Success(items), t2);
    log := app.recentBooks;
    RepeatedSearchRecordedTwice([], q, t1, t2);
  }
}
