/** quickstart/rssfeed_stdio.py: the second copy of the `search_youtube`
    tool, with the same loop written out again and proved to compute the
    same answer as the first copy, from which it inherits every property. */
module QuickstartRssFeed {
  import opened PyStrings
  import R = RssFeed

  /** The `for entry in feed.entries` loop with its `break`. */
  method SearchYoutube(entries: seq<R.FeedEntry>, query: string, maxResults: int) returns (results: seq<R.Video>)
    ensures results == R.SearchResults(entries, query, maxResults)
    ensures maxResults >= 1 ==> |results| <= maxResults
    ensures maxResults <= 0 ==> |results| <= 1
  {
    results := [];
    var queryLower := Lower(query);
    var queryWords := Words(queryLower);
    var i := 0;
    while i < |entries|
      invariant 0 <= i <= |entries|
      invariant results == R.Matches(entries[..i], query)
      invariant i > 0 ==> |results| < maxResults
    {
      var title := R.TitleOf(entries[i]);
      var link := R.LinkOf(entries[i]);
      var titleLower := Lower(title);
      var isMatch := Contains(titleLower, queryLower);
      if !isMatch {
        isMatch := R.AllWordsMatch(queryWords, titleLower);
      }
      R.MatchesSnoc(entries, i, query);
      if isMatch {
        results := results + [R.Video(title, link)];
      }
      if |results| >= maxResults {
        R.StopAt(entries, query, maxResults, i, results);
        return;
      }
      i := i + 1;
    }
    assert entries[..i] == entries;
    R.NoStop(entries, query, maxResults);
  }
}
