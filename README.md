# Book search: search-state model

A Dafny model of the search logic of a client-side book search page (a React
progressive web app over a public book catalog). The page keeps four pieces of
state: the text in the search box (`searchTerm`), the current results
(`books`), a genre → saved-books map seeded with seven empty genres
(`categories`), and a log of recent searches (`recentBooks`). Submitting the
form runs `bookSearch`. If the catalog request fails, nothing changes. If it
succeeds, the results are replaced by the response's `items` (or by nothing
when that field is missing). The search text, stamped with the current time,
is also put at the head of the recent log, and the log is cut to five
entries, newest first, with no deduplication. The submit button is disabled
while the search text, trimmed, is empty.

The repository holds two snapshots of the component. `src/App.jsx` has the
form. `buscador-libros/buscador-libros/src/App.jsx` has the same state and
the same `bookSearch` handler but no form and no input handler.

Files:

- `wrappers.dfy`: `Option`.
- `recent_searches.dfy`: a log entry, the capped prepend `PushRecent`, and runs of successive pushes with their lemmas.
- `search_form.dfy`: JavaScript's `trim` and the submit guard.
- `search_state.dfy`: the state record, the seed, the pure transition `BookSearch` and lemmas about it.
- `app_component.dfy`: the component of `src/App.jsx` as a class whose methods overwrite its fields.
- `buscador_libros.dfy`: the earlier snapshot's component as a class.

The catalog request is an `Outcome` argument: `Failure`, or `Success(items)`
with `items` possibly absent. The clock reading `Date.now()` is the `now`
argument.

## Model

| member | source | states |
|---|---|---|
| `RecentSearches.PushRecent` | src/App.jsx:37-40 | the new log has between 1 and 5 entries, exactly min(old length + 1, 5); its head is {searched text, timestamp}; the rest is a prefix of the old log |
| `RecentSearches.PushRecentKeepsOlderPrefix` | buscador-libros/buscador-libros/src/App.jsx:39-40 | after the head come exactly the old log's first min(4, old length) entries, in their order |
| `RecentSearches.RepeatedSearchRecordedTwice` | buscador-libros/buscador-libros/src/App.jsx:38-42 | searching the same text twice in a row records two entries for it, the newer first (no deduplication) |
| `RecentSearches.AfterSearchesLength` | src/App.jsx:37-41 | after any run of successful searches from a log of at most 5 entries, the log has min(searches + old length, 5) entries |
| `RecentSearches.AfterSearchesAt` | src/App.jsx:37-41 | entry k of that log is the k-th newest search, or, past the searches, the old log's entry k − (number of searches) |
| `RecentSearches.AfterSearchesNewestFirst` | src/App.jsx:37-41 | the whole log after a run of searches: the searches newest first, then the old log, cut to 5 |
| `RecentSearches.AfterSearchesBounded` | buscador-libros/buscador-libros/src/App.jsx:38-42 | however many searches are made, the log never exceeds 5 entries |
| `RecentSearches.LastFiveSearches` | src/App.jsx:37-41 | from an empty log, after N ≥ 5 searches the log holds exactly the last 5, newest first |
| `SearchForm.IsJsWhitespace` | src/App.jsx:66 | the characters `trim` removes, written as code-point ranges, are exactly ECMAScript's WhiteSpace (tab, vertical tab, form feed, space, no-break space, zero-width no-break space, the space separators) plus LineTerminator (LF, CR, U+2028, U+2029); so U+00A0 and U+3000 alone leave the button disabled, while U+200B enables it |
| `SearchForm.SkipWhitespace` | src/App.jsx:66 | the first position at or after i that is not white space; everything skipped is white space |
| `SearchForm.SkipWhitespaceBack` | src/App.jsx:66 | the end of a range once its trailing white space is dropped; everything dropped is white space |
| `SearchForm.Trim` | src/App.jsx:66 | `trim` removes exactly the white space at both ends: the result is a contiguous piece of the input, everything outside it is white space, and a non-empty result starts and ends with a non-white character; it is empty iff the input is all white space |
| `SearchForm.CanSubmit` | src/App.jsx:66 | the button is enabled iff the search text has a character that is not white space |
| `SearchState.InitialState` | src/App.jsx:9-20 | seven distinct genres, each mapped to an empty list; empty search text, results and recent log; the state invariant holds |
| `SearchState.BookSearch` | src/App.jsx:23-45 | failure leaves the state unchanged; success sets the results to `items` or to [] when absent, and pushes {search text, now} onto the log (length, head, tail prefix); search text and categories never change; the invariant (log ≤ 5, seeded categories) is preserved |
| `SearchState.ResultsNotMerged` | src/App.jsx:33-34 | the results after a successful search do not depend on the previous results |
| `SearchState.SuccessPushesRecent` | buscador-libros/buscador-libros/src/App.jsx:34-42 | on success the new log is the capped prepend of the old log with the search text and time |
| `SearchState.SearchAllRecent` | src/App.jsx:23-45 | a run of successful searches changes the log exactly as pushing their entries one by one, and leaves the categories unchanged |
| `SearchState.LastFiveFromInitial` | src/App.jsx:9-41 | from the initial state, after N ≥ 5 successful searches the log holds exactly the last 5 {text, time} pairs, newest first |
| `AppComponent.App.constructor` | src/App.jsx:9-20 | the component starts in the initial state, which satisfies the invariant |
| `AppComponent.App.SetSearchTerm` | src/App.jsx:62-63 | the input handler sets the search text and changes nothing else |
| `AppComponent.App.BookSearch` | src/App.jsx:23-45 | the handler leaves the component in exactly the state the pure transition gives and keeps the invariant |
| `AppComponent.App.Submit` | src/App.jsx:56-66 | the handler runs iff the trimmed text is non-empty; otherwise the state is unchanged |
| `AppComponent.SearchTwice` | src/App.jsx:37-41 | two successful searches for the same text from a fresh component leave a log of two entries for that text, newest first |
| `BuscadorLibros.App.constructor` | buscador-libros/buscador-libros/src/App.jsx:9-21 | the snapshot starts in the same initial state |
| `BuscadorLibros.App.BookSearch` | buscador-libros/buscador-libros/src/App.jsx:24-46 | the snapshot's handler performs the same transition; since nothing sets the text there, every entry of the recent log has the empty title, before and after |

## Left out

- The catalog HTTP request and the response's shape are external I/O; the model receives their result as an `Outcome`. Any request error, and any payload without a `data` field, is one `Failure`.
- `Book` holds only an id and a title. The search logic never inspects an item, so the other catalog fields are not modelled.
- `Date.now()` reads the clock; it is the `now` argument. Timestamps are unbounded integers.
- No cap on the number of results. The request passes `maxResult: 10`, which is not the catalog's `maxResults` parameter, and the client never truncates `items`.
- Category add/remove, visibility toggles, the selected category and saving to or loading from browser storage do not occur in these two files (`setCategories` is never called). The model therefore keeps `categories` at its seed and writes nothing to storage.
- The handler reads `recentBooks` as captured when the page last rendered. Two overlapping searches can therefore lose an entry or apply a stale response. The model applies each search to the current state, one at a time.
- Rendering, `e.preventDefault()` and `console.error` are not modelled. The snapshot under buscador-libros/ returns no markup at all, so nothing there ever calls its handler; the model still gives the handler's behaviour.
- src/serviceWorker.js (the offline asset cache) and vite.config.js (build configuration) have no search logic and are not part of this model.
