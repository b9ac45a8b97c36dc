/**
 * index.js, the news record and the two pure rules over it: the relevance score of an item
 * for a user (`computeScore`) and the defaults `POST /news` fills in before storing an item.
 * Time is an integer number of milliseconds since the epoch, passed in as `now` instead of
 * being read from the clock; the score is an exact `real`.
 */
module News {
  import opened Wrappers

  /**
   * A news item as the feed handles it. Fields a stored document may lack are `Option`s;
   * `computeScore` reads `popularity` and `tags` through a falsy test, so both may be missing.
   */
  datatype NewsItem = NewsItem(
    title: Option<string>,
    url: Option<string>,
    source: string,
    timestamp: int,
    tags: Option<seq<string>>,
    popularity: Option<real>)

  /** Each matching tag is worth this many points. */
  const TagWeight: real := 10.0
  /** An item gains one point per hour younger than this. */
  const FreshHours: real := 50.0
  const MillisPerHour: int := 3_600_000
  /** The age, in milliseconds, from which the recency bonus is zero (50 hours). */
  const StaleAfterMillis: int := 180_000_000

  // ---------------------------------------------------------------- computeScore

  /** `newsItem.popularity || 0`: the popularity when the item has one, else zero. */
  function PopularityBase(item: NewsItem): (base: real)
    ensures item.popularity.Some? ==> base == item.popularity.value
    ensures item.popularity.None? ==> base == 0.0
  {
    item.popularity.GetOr(0.0)
  }

  /** `newsItem.tags.filter(tag => userTags.includes(tag)).length`. */
  function MatchCount(tags: seq<string>, userTags: seq<string>): (n: nat)
    ensures n <= |tags|
    ensures userTags == [] ==> n == 0
  {
    if tags == [] then 0
    else (if tags[0] in userTags then 1 else 0) + MatchCount(tags[1..], userTags)
  }

  /** The positions of `tags` whose tag occurs in `userTags`: a tag listed twice is counted twice. */
  ghost function MatchingPositions(tags: seq<string>, userTags: seq<string>): set<nat> {
    set i: nat | i < |tags| && tags[i] in userTags
  }

  lemma {:induction false} MatchCountAppend(tags: seq<string>, tag: string, userTags: seq<string>)
    ensures MatchCount(tags + [tag], userTags) == MatchCount(tags, userTags) + (if tag in userTags then 1 else 0)
  {
    if tags != [] {
      assert (tags + [tag])[1..] == tags[1..] + [tag];
      MatchCountAppend(tags[1..], tag, userTags);
    }
  }

  /** The match count is the number of matching positions, repeats included. */
  lemma {:induction false} MatchCountIsPositions(tags: seq<string>, userTags: seq<string>)
    ensures MatchCount(tags, userTags) == |MatchingPositions(tags, userTags)|
    decreases |tags|
  {
    if tags != [] {
      var n := |tags| - 1;
      var front := tags[..n];
      MatchCountIsPositions(front, userTags);
      assert tags == front + [tags[n]];
      MatchCountAppend(front, tags[n], userTags);
      var before := MatchingPositions(front, userTags);
      if tags[n] in userTags {
        assert MatchingPositions(tags, userTags) == before + {n};
      } else {
        assert MatchingPositions(tags, userTags) == before;
      }
    }
  }

  /** No tag matches exactly when no tag of the item is among the user's tags. */
  lemma {:induction false} MatchCountZero(tags: seq<string>, userTags: seq<string>)
    ensures MatchCount(tags, userTags) == 0 <==> forall k :: 0 <= k < |tags| ==> tags[k] !in userTags
  {
    if tags != [] {
      MatchCountZero(tags[1..], userTags);
      assert forall k :: 1 <= k < |tags| ==> tags[k] == tags[1..][k - 1];
    }
  }

  /** Every tag matches exactly when all of the item's tags are among the user's tags. */
  lemma {:induction false} MatchCountFull(tags: seq<string>, userTags: seq<string>)
    ensures MatchCount(tags, userTags) == |tags| <==> forall k :: 0 <= k < |tags| ==> tags[k] in userTags
  {
    if tags != [] {
      MatchCountFull(tags[1..], userTags);
      assert forall k :: 1 <= k < |tags| ==> tags[k] == tags[1..][k - 1];
    }
  }

  /** The tag bonus: ten points per matching position, and none when either side has no tags. */
  function TagBonus(item: NewsItem, userTags: seq<string>): (bonus: real)
    ensures 0.0 <= bonus <= TagWeight * |item.tags.GetOr([])| as real
    ensures item.tags.None? || userTags == [] ==> bonus == 0.0
    ensures item.tags.Some? && userTags != [] ==>
      bonus == TagWeight * |MatchingPositions(item.tags.value, userTags)| as real
  {
    if item.tags.Some? && |userTags| > 0 then
      MatchCountIsPositions(item.tags.value, userTags);
      TagWeight * MatchCount(item.tags.value, userTags) as real
    else 0.0
  }

  /** `(Date.now() - timestamp) / 1000 / 3600`: the age of the item in hours, exactly. */
  function HoursSince(timestamp: int, now: int): (hours: real)
    ensures hours * MillisPerHour as real == (now - timestamp) as real
    ensures timestamp <= now ==> hours >= 0.0
  {
    (now - timestamp) as real / 1000.0 / 3600.0
  }

  /** `Math.max(0, 50 - hoursSince)`: never negative, zero from fifty hours of age on, at most 50 unless the item is dated in the future. */
  function RecencyBonus(timestamp: int, now: int): (bonus: real)
    ensures bonus >= 0.0
    ensures bonus == 0.0 <==> now - timestamp >= StaleAfterMillis
    ensures timestamp <= now ==> bonus <= FreshHours
    ensures timestamp == now ==> bonus == FreshHours
  {
    var remaining := FreshHours - HoursSince(timestamp, now);
    if remaining > 0.0 then remaining else 0.0
  }

  /** Scoring the same item later never raises its recency bonus. */
  lemma RecencyNonIncreasing(timestamp: int, now: int, later: int)
    requires now <= later
    ensures RecencyBonus(timestamp, later) <= RecencyBonus(timestamp, now)
  {
  }

  /**
   * `computeScore(newsItem, userTags)` at time `now`: the popularity base, plus ten points per
   * item tag the user follows, plus a recency bonus. Both bonuses are non-negative, so the score
   * never falls below the base.
   */
  function ComputeScore(item: NewsItem, userTags: seq<string>, now: int): (score: real)
    ensures score >= PopularityBase(item)
    ensures item.timestamp <= now ==> score <= PopularityBase(item) + TagWeight * |item.tags.GetOr([])| as real + FreshHours
  {
    PopularityBase(item) + TagBonus(item, userTags) + RecencyBonus(item.timestamp, now)
  }

  /** Popularity 100, one followed tag, ten hours old: 100 + 10 + 40. */
  lemma ScoreExample(now: int)
    ensures ComputeScore(NewsItem(None, None, "HackerNews", now - 10 * MillisPerHour, Some(["ai"]), Some(100.0)), ["ai"], now) == 150.0
  {
    var item := NewsItem(None, None, "HackerNews", now - 10 * MillisPerHour, Some(["ai"]), Some(100.0));
    assert MatchCount(["ai"], ["ai"]) == 1;
    assert HoursSince(item.timestamp, now) == 10.0;
  }

  // ---------------------------------------------------------------- POST /news

  /** The JSON body of `POST /news`; every field may be absent. */
  datatype NewsBody = NewsBody(
    title: Option<string>,
    url: Option<string>,
    source: Option<string>,
    timestamp: Option<int>,
    tags: Option<seq<string>>,
    popularity: Option<real>)

  /** JavaScript truthiness of the optional string and number fields. */
  predicate IsTruthyString(s: Option<string>) { s.Some? && s.value != "" }
  predicate IsTruthyNumber(x: Option<real>) { x.Some? && x.value != 0.0 }

  /**
   * The item `POST /news` stores: the body's fields, with `timestamp` always replaced by `now`,
   * and `source`, `tags` and `popularity` defaulted to "unknown", [] and 0 when falsy.
   * (An empty array is truthy, so supplied tags are always kept.)
   */
  function WithDefaults(body: NewsBody, now: int): (item: NewsItem)
    ensures item.timestamp == now
    ensures item.title == body.title && item.url == body.url
    ensures IsTruthyString(body.source) ==> item.source == body.source.value
    ensures !IsTruthyString(body.source) ==> item.source == "unknown"
    ensures body.tags.Some? ==> item.tags == body.tags
    ensures body.tags.None? ==> item.tags == Some([])
    ensures IsTruthyNumber(body.popularity) ==> item.popularity == body.popularity
    ensures !IsTruthyNumber(body.popularity) ==> item.popularity == Some(0.0)
  {
    NewsItem(
      body.title,
      body.url,
      if IsTruthyString(body.source) then body.source.value else "unknown",
      now,
      Some(body.tags.GetOr([])),
      Some(if IsTruthyNumber(body.popularity) then body.popularity.value else 0.0))
  }

  /** A stored item sent back as a request body. */
  function AsBody(item: NewsItem): NewsBody {
    NewsBody(item.title, item.url, Some(item.source), Some(item.timestamp), item.tags, item.popularity)
  }

  /** Posting a stored item again changes nothing but its timestamp: the defaults are idempotent. */
  lemma WithDefaultsIdempotent(body: NewsBody, first: int, second: int)
    ensures WithDefaults(AsBody(WithDefaults(body, first)), second) == WithDefaults(body, second)
  {
  }

  /** Whatever timestamp the body carries is ignored. */
  lemma WithDefaultsIgnoresTimestamp(body: NewsBody, stamp: Option<int>, now: int)
    ensures WithDefaults(body.(timestamp := stamp), now) == WithDefaults(body, now)
  {
  }

  /** A freshly posted item, scored at the moment it was posted, receives the full recency bonus of 50. */
  lemma FreshPostScore(body: NewsBody, userTags: seq<string>, now: int)
    ensures var item := WithDefaults(body, now);
      ComputeScore(item, userTags, now) == PopularityBase(item) + TagBonus(item, userTags) + FreshHours
  {
  }

  // ---------------------------------------------------------------- HackerNews records

  /** The fields of a HackerNews story detail the feed reads; `time` is in epoch seconds. */
  datatype Story = Story(title: Option<string>, url: Option<string>, time: int, score: Option<real>)

  const HackerNewsSource: string := "HackerNews"
  const HackerNewsTags: seq<string> := ["tech"]

  /** The record the `/news` handler pushes for one story: its title, url and score, the source "HackerNews", the tag "tech", and its time converted from seconds to milliseconds. */
  function FromStory(story: Story): (item: NewsItem)
    ensures item.title == story.title && item.url == story.url && item.popularity == story.score
    ensures item.source == HackerNewsSource && item.tags == Some(HackerNewsTags)
    ensures item.timestamp == story.time * 1000
  {
    NewsItem(story.title, story.url, HackerNewsSource, story.time * 1000, Some(HackerNewsTags), story.score)
  }
}
