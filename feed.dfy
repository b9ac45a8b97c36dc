/**
 * index.js, the `GET /news` handler: read the user's followed tags, take up to ten top
 * HackerNews stories, append them after the stored items, attach a score to every item and
 * sort by descending score. The network and the database are parameters: `settings` is the
 * settings lookup, `stored` the news collection's contents, `topStories` the top-stories id
 * list, each a `Failure` when that read throws, and `stories` the story details that could be
 * fetched (an id with no entry stands for a fetch that throws).
 */
module Feed {
  import opened Wrappers
  import opened News
  import opened Ranking

  /** The fields of a user's settings document that the feed reads. */
  datatype Settings = Settings(tags: Option<seq<string>>)

  /** The message of the 500 response the handler sends when anything throws. */
  const FetchError: string := "Failed to fetch news"
  /** `hnResponse.data.slice(0, 10)`. */
  const TopStoryLimit: nat := 10

  /** `userSettings?.tags || []`: the followed tags, or none when there is no settings document or no tags field. */
  function UserTags(settings: Option<Settings>): (userTags: seq<string>)
    ensures settings.Some? && settings.value.tags.Some? ==> userTags == settings.value.tags.value
    ensures settings.None? || settings.value.tags.None? ==> userTags == []
  {
    match settings
    case None => []
    case Some(s) => s.tags.GetOr([])
  }

  /** `ids.slice(0, 10)`: the first ten ids, or all of them when there are fewer. */
  function TopIds(ids: seq<int>): (top: seq<int>)
    ensures |top| <= TopStoryLimit && |top| <= |ids| && top == ids[..|top|]
    ensures |top| == TopStoryLimit || top == ids
  {
    if |ids| <= TopStoryLimit then ids else ids[..TopStoryLimit]
  }

  /**
   * The records the fetch loop pushes, one per id and in id order; the loop throws at the
   * first id whose detail cannot be fetched, and the whole request fails.
   */
  function FetchAll(ids: seq<int>, stories: map<int, Story>): (r: Result<seq<NewsItem>>)
    ensures r.Success? <==> forall k :: 0 <= k < |ids| ==> ids[k] in stories
    ensures r.Failure? ==> r.error == FetchError
    ensures r.Success? ==> |r.value| == |ids|
    ensures r.Success? ==> forall k :: 0 <= k < |ids| ==> ids[k] in stories && r.value[k] == FromStory(stories[ids[k]])
  {
    if ids == [] then Success([])
    else if ids[0] !in stories then Failure(FetchError)
    else
      match FetchAll(ids[1..], stories)
      case Failure(e) => Failure(e)
      case Success(rest) => Success([FromStory(stories[ids[0]])] + rest)
  }

  /** The HackerNews part of the feed: at most ten items, each from HackerNews, tagged "tech", dated `time * 1000` ms. */
  lemma HackerNewsItems(topStories: seq<int>, stories: map<int, Story>)
    ensures var r := FetchAll(TopIds(topStories), stories);
      r.Success? ==> (
        |r.value| <= TopStoryLimit &&
        forall k :: 0 <= k < |r.value| ==>
          r.value[k].source == HackerNewsSource && r.value[k].tags == Some(HackerNewsTags) &&
          topStories[k] in stories &&
          r.value[k].timestamp == stories[topStories[k]].time * 1000 &&
          r.value[k].popularity == stories[topStories[k]].score)
  {
    var top := TopIds(topStories);
    assert forall k :: 0 <= k < |top| ==> top[k] == topStories[k];
  }

  /** The feed before sorting: stored items first, then the fetched stories, each with its score. */
  ghost function Unsorted(stored: seq<NewsItem>, fetched: seq<NewsItem>, userTags: seq<string>, now: int): seq<Ranked> {
    RankAll(stored + fetched, userTags, now)
  }

  /** The loop of the handler that fetches each top story's detail and pushes its record. */
  method FetchStories(topIds: seq<int>, stories: map<int, Story>) returns (r: Result<seq<NewsItem>>)
    ensures r == FetchAll(topIds, stories)
  {
    var hnNews: seq<NewsItem> := [];
    var n := 0;
    while n < |topIds|
      invariant 0 <= n <= |topIds|
      invariant |hnNews| == n
      invariant forall k :: 0 <= k < n ==> topIds[k] in stories && hnNews[k] == FromStory(stories[topIds[k]])
    {
      var id := topIds[n];
      if id !in stories {
        return Failure(FetchError);
      }
      hnNews := hnNews + [FromStory(stories[id])];
      n := n + 1;
    }
    assert hnNews == FetchAll(topIds, stories).value;
    r := Success(hnNews);
  }

  /** `allNews.map(item => ({ ...item, rankScore: computeScore(item, userTags) }))`, written into a new buffer. */
  method RankInto(allNews: seq<NewsItem>, userTags: seq<string>, now: int) returns (ranked: array<Ranked>)
    ensures fresh(ranked)
    ensures ranked[..] == RankAll(allNews, userTags, now)
  {
    ranked := new Ranked[|allNews|];
    var i := 0;
    while i < |allNews|
      invariant 0 <= i <= |allNews|
      invariant forall k :: 0 <= k < i ==> ranked[k] == Ranked(allNews[k], ComputeScore(allNews[k], userTags, now))
    {
      ranked[i] := Ranked(allNews[i], ComputeScore(allNews[i], userTags, now));
      i := i + 1;
    }
    assert ranked[..] == RankAll(allNews, userTags, now);
  }

  /**
   * The `GET /news` handler from the settings lookup to the sorted response. Each read from
   * the world may fail: the settings lookup, the stored-news read, the top-stories request
   * (including a response whose data is not a list) and each story fetch. Any failure ends the
   * request with the 500 response "Failed to fetch news". On success the response holds every
   * stored item and every fetched story exactly once, each carrying its score, ordered by
   * non-increasing score, with ties in their merged order.
   */
  method BuildFeed(settings: Result<Option<Settings>>, stored: Result<seq<NewsItem>>,
                   topStories: Result<seq<int>>, stories: map<int, Story>, now: int)
    returns (r: Result<seq<Ranked>>)
    ensures r.Success? <==>
      settings.Success? && stored.Success? && topStories.Success? &&
      FetchAll(TopIds(topStories.value), stories).Success?
    ensures r.Failure? ==> r.error == FetchError
    ensures r.Success? ==>
      var fetched := FetchAll(TopIds(topStories.value), stories).value;
      var merged := Unsorted(stored.value, fetched, UserTags(settings.value), now);
      r.value == SortedByRank(merged) &&
      |r.value| == |stored.value| + |TopIds(topStories.value)| &&
      multiset(r.value) == multiset(merged) &&
      NonIncreasing(r.value)
  {
    if settings.Failure? || stored.Failure? || topStories.Failure? {
      return Failure(FetchError);
    }
    var userTags := UserTags(settings.value);
    var topIds := TopIds(topStories.value);
    var hnNews := FetchStories(topIds, stories);
    if hnNews.Failure? {
      return Failure(hnNews.error);
    }
    var allNews := stored.value + hnNews.value;
    var ranked := RankInto(allNews, userTags, now);
    ghost var merged := ranked[..];
    SortByRank(ranked);
    SortedByRankPermutes(merged);
    SortedByRankSorted(merged);
    r := Success(ranked[..]);
  }
}
