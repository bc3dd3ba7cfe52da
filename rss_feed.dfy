/** The title search of the RSS `search_youtube` tool (rssfeed_stdio.py), on
    the feed's entries as given: an entry matches when the lower-cased query
    occurs in its lower-cased title, or every word of the query does; the
    matches are collected in feed order until there are `maxResults` of
    them, and the loop stops after the first entry when `maxResults <= 0`. */
module RssFeed {
  import opened Wrappers
  import opened PyStrings

  /** A feed entry; either field may be missing. */
  datatype FeedEntry = FeedEntry(title: Option<string>, link: Option<string>)

  /** One result: `{"title": title, "link": link}`. */
  datatype Video = Video(title: string, link: string)

  /** `entry.get("title", "")` */
  function TitleOf(e: FeedEntry): string {
    if e.title.Some? then e.title.value else ""
  }

  /** `entry.get("link", "")` */
  function LinkOf(e: FeedEntry): string {
    if e.link.Some? then e.link.value else ""
  }

  function VideoOf(e: FeedEntry): (v: Video)
    ensures v.title == TitleOf(e) && v.link == LinkOf(e)
  {
    Video(TitleOf(e), LinkOf(e))
  }

  /** Every word of the query occurs in the title. */
  predicate AllWordsIn(words: seq<string>, title: string) {
    forall i | 0 <= i < |words| :: Contains(title, words[i])
  }

  /** The match test on the lower-cased query and title. */
  predicate TitleMatches(query: string, title: string) {
    var q := Lower(query);
    var t := Lower(title);
    Contains(t, q) || AllWordsIn(Words(q), t)
  }

  /** The match verdict of every entry, position by position. */
  function Hits(entries: seq<FeedEntry>, query: string): (hits: seq<bool>)
    ensures |hits| == |entries|
    ensures forall i | 0 <= i < |entries| :: hits[i] == TitleMatches(query, TitleOf(entries[i]))
  {
    seq(|entries|, i requires 0 <= i < |entries| => TitleMatches(query, TitleOf(entries[i])))
  }

  /** The entries whose verdict is true, in feed order. */
  function Picked(entries: seq<FeedEntry>, hits: seq<bool>): (vs: seq<Video>)
    requires |hits| == |entries|
    ensures |vs| <= |entries|
  {
    if entries == [] then []
    else
      var n := |entries| - 1;
      Picked(entries[..n], hits[..n]) + (if hits[n] then [VideoOf(entries[n])] else [])
  }

  /** Every matching entry, in feed order. */
  function Matches(entries: seq<FeedEntry>, query: string): seq<Video> {
    Picked(entries, Hits(entries, query))
  }

  /** What the tool returns: the first `maxResults` matches, or, when
      `maxResults <= 0`, the first entry if it matches. */
  function SearchResults(entries: seq<FeedEntry>, query: string, maxResults: int): (vs: seq<Video>)
    ensures maxResults >= 1 ==> |vs| <= maxResults
    ensures maxResults <= 0 ==> |vs| <= 1
  {
    if maxResults <= 0 then Matches(Take(entries, 1), query)
    else Take(Matches(entries, query), maxResults)
  }

  /** The default of the `max_results` parameter. */
  const DefaultMaxResults := 10

  /** A call that leaves `max_results` out: the first ten matches. */
  method SearchYoutubeDefault(entries: seq<FeedEntry>, query: string) returns (results: seq<Video>)
    ensures results == Take(Matches(entries, query), DefaultMaxResults)
    ensures |results| <= 10
  {
    results := SearchYoutube(entries, query, DefaultMaxResults);
  }

  /** The `for entry in feed.entries` loop with its `break`. */
  method SearchYoutube(entries: seq<FeedEntry>, query: string, maxResults: int) returns (results: seq<Video>)
    ensures results == SearchResults(entries, query, maxResults)
  {
    results := [];
    var queryLower := Lower(query);
    var queryWords := Words(queryLower);
    var i := 0;
    while i < |entries|
      invariant 0 <= i <= |entries|
      invariant results == Matches(entries[..i], query)
      invariant i > 0 ==> |results| < maxResults
    {
      var e := entries[i];
      var title := TitleOf(e);
      var link := LinkOf(e);
      var titleLower := Lower(title);
      var isMatch := Contains(titleLower, queryLower);
      if !isMatch {
        isMatch := AllWordsMatch(queryWords, titleLower);
      }
      MatchesSnoc(entries, i, query);
      if isMatch {
        results := results + [Video(title, link)];
      }
      if |results| >= maxResults {
        StopAt(entries, query, maxResults, i, results);
        return;
      }
      i := i + 1;
    }
    assert entries[..i] == entries;
    NoStop(entries, query, maxResults);
  }

  /** `all(word in title_lower for word in query_words)` */
  method AllWordsMatch(words: seq<string>, title: string) returns (b: bool)
    ensures b == AllWordsIn(words, title)
  {
    var k := 0;
    while k < |words|
      invariant 0 <= k <= |words|
      invariant forall j | 0 <= j < k :: Contains(title, words[j])
    {
      if !Contains(title, words[k]) {
        return false;
      }
      k := k + 1;
    }
    return true;
  }

  // ---------------------------------------------------------------------------
  // Picking entries by a verdict
  // ---------------------------------------------------------------------------

  lemma PickedSnoc(entries: seq<FeedEntry>, hits: seq<bool>, i: nat)
    requires |hits| == |entries| && i < |entries|
    ensures Picked(entries[..i + 1], hits[..i + 1]) ==
      Picked(entries[..i], hits[..i]) + (if hits[i] then [VideoOf(entries[i])] else [])
  {
    assert entries[..i + 1][..i] == entries[..i];
    assert hits[..i + 1][..i] == hits[..i];
  }

  /** Picking from a prefix gives a prefix. */
  lemma {:induction false} PickedPrefix(entries: seq<FeedEntry>, hits: seq<bool>, i: nat)
    requires |hits| == |entries| && i <= |entries|
    ensures Picked(entries[..i], hits[..i]) <= Picked(entries, hits)
  {
    if i == |entries| {
      assert entries[..i] == entries;
      assert hits[..i] == hits;
    } else {
      var n := |entries| - 1;
      PickedPrefix(entries[..n], hits[..n], i);
      assert entries[..n][..i] == entries[..i];
      assert hits[..n][..i] == hits[..i];
    }
  }

  /** What is picked are the entries at increasing positions whose verdict
      is true, and every such entry is picked. */
  lemma {:induction false} PickedSubsequence(entries: seq<FeedEntry>, hits: seq<bool>) returns (idx: seq<nat>)
    requires |hits| == |entries|
    ensures |idx| == |Picked(entries, hits)|
    ensures forall k | 0 <= k < |idx| :: idx[k] < |entries|
    ensures forall k | 0 < k < |idx| :: idx[k - 1] < idx[k]
    ensures forall k | 0 <= k < |idx| :: hits[idx[k]] && Picked(entries, hits)[k] == VideoOf(entries[idx[k]])
    ensures forall i | 0 <= i < |entries| && hits[i] :: exists k | 0 <= k < |idx| :: idx[k] == i
  {
    if entries == [] {
      idx := [];
    } else {
      var n := |entries| - 1;
      var front, fhits := entries[..n], hits[..n];
      var pre := PickedSubsequence(front, fhits);
      var p, pf := Picked(entries, hits), Picked(front, fhits);
      forall k | 0 <= k < |pre|
        ensures pre[k] < n && hits[pre[k]] && p[k] == VideoOf(entries[pre[k]])
      {
        assert front[pre[k]] == entries[pre[k]] && fhits[pre[k]] == hits[pre[k]];
        PickedKeeps(front, fhits, entries, hits, k);
      }
      if hits[n] {
        idx := pre + [n];
        assert p == pf + [VideoOf(entries[n])];
      } else {
        idx := pre;
      }
      forall i | 0 <= i < |entries| && hits[i]
        ensures exists k | 0 <= k < |idx| :: idx[k] == i
      {
        if i < n {
          assert fhits[i];
          var k :| 0 <= k < |pre| && pre[k] == i;
          assert idx[k] == i;
        } else {
          assert idx[|pre|] == n;
        }
      }
    }
  }

  /** Picking from the whole feed starts with what is picked from all but
      its last entry. */
  lemma PickedKeeps(front: seq<FeedEntry>, fhits: seq<bool>, entries: seq<FeedEntry>, hits: seq<bool>, k: nat)
    requires |hits| == |entries| && entries != []
    requires front == entries[..|entries| - 1] && fhits == hits[..|entries| - 1]
    requires k < |Picked(front, fhits)|
    ensures k < |Picked(entries, hits)| && Picked(entries, hits)[k] == Picked(front, fhits)[k]
  {
  }

  /** With every verdict true, every entry is picked. */
  lemma {:induction false} PickedAll(entries: seq<FeedEntry>, hits: seq<bool>)
    requires |hits| == |entries|
    requires forall i | 0 <= i < |hits| :: hits[i]
    ensures Picked(entries, hits) == seq(|entries|, k requires 0 <= k < |entries| => VideoOf(entries[k]))
  {
    if entries != [] {
      var n := |entries| - 1;
      PickedAll(entries[..n], hits[..n]);
    }
  }

  // ---------------------------------------------------------------------------
  // The matches
  // ---------------------------------------------------------------------------

  lemma HitsPrefix(entries: seq<FeedEntry>, query: string, i: nat)
    requires i <= |entries|
    ensures Hits(entries[..i], query) == Hits(entries, query)[..i]
  {
    assert forall k | 0 <= k < i :: entries[..i][k] == entries[k];
  }

  lemma MatchesSnoc(entries: seq<FeedEntry>, i: nat, query: string)
    requires i < |entries|
    ensures Matches(entries[..i + 1], query) ==
      Matches(entries[..i], query) + (if TitleMatches(query, TitleOf(entries[i])) then [VideoOf(entries[i])] else [])
  {
    var hits := Hits(entries, query);
    HitsPrefix(entries, query, i);
    HitsPrefix(entries, query, i + 1);
    PickedSnoc(entries, hits, i);
  }

  /** The matches of a prefix of the feed are a prefix of its matches. */
  lemma MatchesPrefix(entries: seq<FeedEntry>, i: nat, query: string)
    requires i <= |entries|
    ensures Matches(entries[..i], query) <= Matches(entries, query)
  {
    HitsPrefix(entries, query, i);
    PickedPrefix(entries, Hits(entries, query), i);
  }

  /** Where the loop breaks, the results are the tool's answer. */
  lemma StopAt(entries: seq<FeedEntry>, query: string, maxResults: int, i: nat, results: seq<Video>)
    requires i < |entries|
    requires results == Matches(entries[..i + 1], query)
    requires i > 0 ==> |Matches(entries[..i], query)| < maxResults
    requires |results| >= maxResults
    ensures results == SearchResults(entries, query, maxResults)
  {
    if maxResults <= 0 {
      if i > 0 {
        assert false;
      }
      assert Take(entries, 1) == entries[..1];
    } else {
      MatchesPrefix(entries, i + 1, query);
      var all := Matches(entries, query);
      assert |results| == maxResults by {
        if i > 0 {
          MatchesSnoc(entries, i, query);
        }
      }
      assert Take(all, maxResults) == all[..maxResults];
    }
  }

  /** When the loop never breaks, the matches are fewer than `maxResults`. */
  lemma NoStop(entries: seq<FeedEntry>, query: string, maxResults: int)
    requires entries != [] ==> |Matches(entries, query)| < maxResults
    ensures Matches(entries, query) == SearchResults(entries, query, maxResults)
  {
    if entries == [] {
      assert Take(entries, 1) == entries;
    }
  }

  // ---------------------------------------------------------------------------
  // What the results are
  // ---------------------------------------------------------------------------

  /** The matches are a subsequence of the feed: the entries at increasing
      positions `idx` that match, with their own titles and links. Every
      matching entry is among them. */
  lemma MatchesSubsequence(entries: seq<FeedEntry>, query: string) returns (idx: seq<nat>)
    ensures |idx| == |Matches(entries, query)|
    ensures forall k | 0 <= k < |idx| :: idx[k] < |entries|
    ensures forall k | 0 < k < |idx| :: idx[k - 1] < idx[k]
    ensures forall k | 0 <= k < |idx| ::
      TitleMatches(query, TitleOf(entries[idx[k]])) && Matches(entries, query)[k] == VideoOf(entries[idx[k]])
    ensures forall i | 0 <= i < |entries| && TitleMatches(query, TitleOf(entries[i])) ::
      exists k | 0 <= k < |idx| :: idx[k] == i
  {
    idx := PickedSubsequence(entries, Hits(entries, query));
  }

  /** With a positive cap the answer is the first `maxResults` matches; with
      a cap of zero or less it is the first entry's match, if any. */
  lemma SearchResultsPrefix(entries: seq<FeedEntry>, query: string, maxResults: int)
    ensures SearchResults(entries, query, maxResults) <= Matches(entries, query)
    ensures maxResults >= 1 ==> |SearchResults(entries, query, maxResults)| == Min(maxResults, |Matches(entries, query)|)
  {
    if maxResults <= 0 {
      MatchesPrefix(entries, Min(1, |entries|), query);
      assert Take(entries, 1) == entries[..Min(1, |entries|)];
    }
  }

  /** An empty query matches every title, so every entry is a match. */
  lemma EmptyQueryMatchesAll(entries: seq<FeedEntry>)
    ensures |Matches(entries, "")| == |entries|
    ensures forall k | 0 <= k < |entries| :: Matches(entries, "")[k] == VideoOf(entries[k])
  {
    var hits := Hits(entries, "");
    forall i | 0 <= i < |hits|
      ensures hits[i]
    {
      assert "" <= Lower(TitleOf(entries[i]))[0..];
    }
    PickedAll(entries, hits);
  }
}
