/**
 * The state of the book search page and what a search does to it. The remote
 * catalog request is not modelled: its result reaches the model as an
 * `Outcome`, and the clock reading as the `now` argument.
 */
module SearchState {
  import opened Wrappers
  import opened RecentSearches

  /** A catalog item as returned by the lookup; the search logic never looks inside it. */
  datatype Book = Book(id: string, title: string)

  /**
   * How the catalog request ended: the request threw (transport error, bad
   * status, a payload without a `data` field), or it answered with a payload
   * whose `items` field may be missing.
   */
  datatype Outcome = Failure | Success(items: Option<seq<Book>>)

  /** The four pieces of component state. */
  datatype State = State(
    searchTerm: string,
    books: seq<Book>,
    categories: map<string, seq<Book>>,
    recentBooks: seq<Entry>)

  /** The seven genres the category map is seeded with, in declaration order. */
  const Genres: seq<string> :=
    ["Aventuras", "Ciencia Ficci\U{f3}n", "Hist\U{f3}rica", "Novela Negra",
     "Rom\U{e1}ntica", "Terror", "Tecnolog\U{ed}a"]

  /** The seeded category map: every genre mapped to an empty list. */
  const SeedCategories: map<string, seq<Book>> := map g | g in Genres :: []

  /** The state before any input or search. */
  const Initial: State := State("", [], SeedCategories, [])

  /** What holds of every state the page can reach. */
  predicate Invariant(s: State) {
    |s.recentBooks| <= MaxRecent && s.categories == SeedCategories
  }

  /** The seed holds seven distinct genres, each with an empty list, and no searches or results yet. */
  lemma InitialState()
    ensures |Genres| == 7
    ensures forall i, j :: 0 <= i < j < |Genres| ==> Genres[i] != Genres[j]
    ensures Initial.categories.Keys == set g | g in Genres
    ensures forall g :: g in Initial.categories ==> Initial.categories[g] == []
    ensures Initial.searchTerm == "" && Initial.books == [] && Initial.recentBooks == []
    ensures Invariant(Initial)
  {
  }

  /**
   * `bookSearch`: a failed request leaves the state as it was; a successful
   * one replaces the results wholesale by `items` (or by nothing when the
   * field is missing) and puts the searched text, stamped `now`, at the head
   * of the recent log, keeping at most four older entries in their order.
   * The search text and the categories are never touched.
   */
  function BookSearch(s: State, outcome: Outcome, now: int): (r: State)
    ensures r.searchTerm == s.searchTerm && r.categories == s.categories
    ensures outcome.Failure? ==> r == s
    ensures outcome.Success? && outcome.items.Some? ==> r.books == outcome.items.value
    ensures outcome.Success? && outcome.items.None? ==> r.books == []
    ensures outcome.Success? ==>
      |r.recentBooks| == Min(|s.recentBooks| + 1, MaxRecent) &&
      r.recentBooks[0] == Entry(s.searchTerm, now) &&
      r.recentBooks[1..] <= s.recentBooks
    ensures Invariant(s) ==> Invariant(r)
  {
    match outcome
    case Failure => s
    case Success(items) =>
      s.(books := items.GetOr([]), recentBooks := PushRecent(s.recentBooks, s.searchTerm, now))
  }

  /** Results are never merged: after a successful search they do not depend on the previous ones. */
  lemma ResultsNotMerged(s1: State, s2: State, items: Option<seq<Book>>, now: int)
    ensures BookSearch(s1, Success(items), now).books == BookSearch(s2, Success(items), now).books
  {
  }

  /**
   * The recent log after a successful search depends only on the old log, the
   * search text and the time. This is the bridge that lets the lemmas about
   * `PushRecent` (`PushRecentKeepsOlderPrefix`, `RepeatedSearchRecordedTwice`)
   * be applied to the transition.
   */
  lemma SuccessPushesRecent(s: State, items: Option<seq<Book>>, now: int)
    ensures BookSearch(s, Success(items), now).recentBooks == PushRecent(s.recentBooks, s.searchTerm, now)
  {
  }

  /** The successful searches `runs` (text, time and items each), applied one after another from `s`. */
  function SearchAll(s: State, runs: seq<(string, int, Option<seq<Book>>)>): State
  {
    if runs == [] then s
    else
      var prev := SearchAll(s, runs[..|runs| - 1]);
      var (q, t, items) := runs[|runs| - 1];
      BookSearch(prev.(searchTerm := q), Success(items), t)
  }

  /** The entries a run of successful searches records, oldest first. */
  function Recorded(runs: seq<(string, int, Option<seq<Book>>)>): (log: seq<Entry>)
    ensures |log| == |runs|
    ensures forall k :: 0 <= k < |runs| ==> log[k] == Entry(runs[k].0, runs[k].1)
  {
    if runs == [] then []
    else Recorded(runs[..|runs| - 1]) + [Entry(runs[|runs| - 1].0, runs[|runs| - 1].1)]
  }

  /** A run of successful searches changes the recent log exactly as pushing its entries one by one does. */
  lemma {:induction false} SearchAllRecent(s: State, runs: seq<(string, int, Option<seq<Book>>)>)
    ensures SearchAll(s, runs).recentBooks == AfterSearches(s.recentBooks, Recorded(runs))
    ensures SearchAll(s, runs).categories == s.categories
  {
    if runs != [] {
      var earlier := runs[..|runs| - 1];
      SearchAllRecent(s, earlier);
      assert Recorded(runs)[..|runs| - 1] == Recorded(earlier);
    }
  }

  /**
   * From the initial state, after five or more successful searches the recent
   * log holds exactly the last five searches, newest first.
   */
  lemma LastFiveFromInitial(runs: seq<(string, int, Option<seq<Book>>)>)
    requires |runs| >= MaxRecent
    ensures var log := SearchAll(Initial, runs).recentBooks;
      |log| == MaxRecent &&
      forall k :: 0 <= k < MaxRecent ==>
        log[k] == Entry(runs[|runs| - 1 - k].0, runs[|runs| - 1 - k].1)
  {
    SearchAllRecent(Initial, runs);
    LastFiveSearches(Recorded(runs));
  }
}
