/**
 * The recent-search log of the book search page: a most-recent-first list of
 * {title, timestamp} entries that never holds more than five of them.
 */
module RecentSearches {

  /** One recorded search: the text that was searched and when. */
  datatype Entry = Entry(title: string, timestamp: int)

  /** The log keeps the new entry plus the first four older ones. */
  const MaxRecent: nat := 5

  function Min(a: int, b: int): int {
    if a < b then a else b
  }

  /**
   * The log after a successful search for `q` at time `t`: the new entry
   * first, then `log.slice(0, 4)`. The four ensures clauses together
   * determine the result.
   */
  function PushRecent(log: seq<Entry>, q: string, t: int): (r: seq<Entry>)
    ensures 1 <= |r| <= MaxRecent
    ensures |r| == Min(|log| + 1, MaxRecent)
    ensures r[0] == Entry(q, t)
    ensures r[1..] <= log
  {
    [Entry(q, t)] + log[..Min(|log|, MaxRecent - 1)]
  }

  /** The log after the successful searches `searches`, oldest first, starting from `log`. */
  function AfterSearches(log: seq<Entry>, searches: seq<Entry>): seq<Entry>
  {
    if searches == [] then log
    else
      var last := searches[|searches| - 1];
      PushRecent(AfterSearches(log, searches[..|searches| - 1]), last.title, last.timestamp)
  }

  /** Whatever the old log, the entries after the new head are its first min(4, |log|) entries, in order. */
  lemma PushRecentKeepsOlderPrefix(log: seq<Entry>, q: string, t: int)
    ensures var r := PushRecent(log, q, t);
      |r| - 1 == Min(|log|, MaxRecent - 1) &&
      forall k :: 1 <= k < |r| ==> r[k] == log[k - 1]
  {
    var r := PushRecent(log, q, t);
    forall k | 1 <= k < |r| ensures r[k] == log[k - 1] {
      assert r[k] == r[1..][k - 1];
    }
  }

  /** No deduplication: searching the same text twice in a row records it twice. */
  lemma RepeatedSearchRecordedTwice(log: seq<Entry>, q: string, t1: int, t2: int)
    ensures var r := PushRecent(PushRecent(log, q, t1), q, t2);
      |r| >= 2 && r[0] == Entry(q, t2) && r[1] == Entry(q, t1)
  {
    var r1 := PushRecent(log, q, t1);
    var r := PushRecent(r1, q, t2);
    assert r[1] == r[1..][0] == r1[0];
  }

  /** The length of the log after a run of successful searches from a log that respects the cap. */
  lemma {:induction false} AfterSearchesLength(log: seq<Entry>, searches: seq<Entry>)
    requires |log| <= MaxRecent
    ensures |AfterSearches(log, searches)| == Min(|searches| + |log|, MaxRecent)
  {
    if searches != [] {
      AfterSearchesLength(log, searches[..|searches| - 1]);
    }
  }

  /**
   * Entry `k` of the log after a run of successful searches: the searches come
   * newest first, then the old log.
   */
  lemma {:induction false} AfterSearchesAt(log: seq<Entry>, searches: seq<Entry>, k: nat)
    requires |log| <= MaxRecent
    requires k < Min(|searches| + |log|, MaxRecent)
    ensures |AfterSearches(log, searches)| == Min(|searches| + |log|, MaxRecent)
    ensures AfterSearches(log, searches)[k] ==
      if k < |searches| then searches[|searches| - 1 - k] else log[k - |searches|]
  {
    AfterSearchesLength(log, searches);
    if searches != [] && k > 0 {
      var n := |searches|;
      var earlier := searches[..n - 1];
      var p := AfterSearches(log, earlier);
      AfterSearchesLength(log, earlier);
      PushRecentKeepsOlderPrefix(p, searches[n - 1].title, searches[n - 1].timestamp);
      AfterSearchesAt(log, earlier, k - 1);
    }
  }

  /**
   * After any run of successful searches from a log that respects the cap,
   * the log is the searches in reverse order followed by the old log, cut
   * to five entries.
   */
  lemma AfterSearchesNewestFirst(log: seq<Entry>, searches: seq<Entry>)
    requires |log| <= MaxRecent
    ensures var r := AfterSearches(log, searches);
      |r| == Min(|searches| + |log|, MaxRecent) &&
      forall k :: 0 <= k < |r| ==>
        r[k] == if k < |searches| then searches[|searches| - 1 - k] else log[k - |searches|]
  {
    AfterSearchesLength(log, searches);
    forall k | 0 <= k < |AfterSearches(log, searches)|
      ensures AfterSearches(log, searches)[k] ==
        if k < |searches| then searches[|searches| - 1 - k] else log[k - |searches|]
    {
      AfterSearchesAt(log, searches, k);
    }
  }

  /** The log never grows past five entries, however many searches are made. */
  lemma AfterSearchesBounded(log: seq<Entry>, searches: seq<Entry>)
    requires |log| <= MaxRecent
    ensures |AfterSearches(log, searches)| <= MaxRecent
  {
    AfterSearchesLength(log, searches);
  }

  /** Starting from an empty log, five or more searches leave exactly the last five, newest first. */
  lemma LastFiveSearches(searches: seq<Entry>)
    requires |searches| >= MaxRecent
    ensures |AfterSearches([], searches)| == MaxRecent
    ensures forall k :: 0 <= k < MaxRecent ==>
      AfterSearches([], searches)[k] == searches[|searches| - 1 - k]
  {
    AfterSearchesLength([], searches);
    forall k | 0 <= k < MaxRecent
      ensures AfterSearches([], searches)[k] == searches[|searches| - 1 - k]
    {
      AfterSearchesAt([], searches, k);
    }
  }
}
