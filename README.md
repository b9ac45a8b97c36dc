# hud-news-portal: feed ranking and tag generation, modelled in Dafny

This project models the core of a news-feed backend written in JavaScript.

- **Scoring.** `computeScore` rates one news item for one user. The score is the item's popularity, plus ten points per item tag the user follows, plus a recency bonus. The bonus is 50 points, minus one point per hour of age, and never below zero.
- **The `GET /news` pipeline.** It reads the user's followed tags and takes the first ten HackerNews top-story ids. It fetches each story's detail in a loop and turns it into a news record. The fetched records go after the stored ones, every item gets a copy with its `rankScore`, and the copies are sorted by descending score.
- **The `POST /news` defaults.** The timestamp is always "now". A missing or falsy `source` becomes "unknown", missing `tags` become `[]`, and a falsy `popularity` becomes `0`.
- **Tag generation** (`generateTagsWithGemini`). When the external text model answers, its reply is trimmed, split on commas, and each piece is trimmed and lower-cased. When the call fails, the tags are the title's words longer than four characters, at most five, lower-cased, in title order.

The model is split into modules:

- `Wrappers`: `Option` and `Result`.
- `Text`: the JavaScript string operations `trim`, `split` on one character and `toLowerCase`, over `seq<char>`.
- `TagGenerator`: tag generation.
- `News`: the news record, `computeScore`, the `POST /news` defaults and the HackerNews record.
- `Ranking`: the score map, and the stable descending sort as a functional specification and as an in-place insertion sort on an `array`.
- `Feed`: the `GET /news` handler as methods with loops, proved against the functional definitions.

Inputs the source reads from the world become parameters:

- The clock becomes `now`, in integer milliseconds since the epoch.
- The settings lookup becomes `settings`, the stored news collection `stored`, and the top-stories response `topStories`. Each is a `Result` whose `Failure` stands for a read that throws; for the top stories this includes a response whose data is not a list.
- The story details that can be fetched become the map `stories`. An id with no entry is a fetch that throws.
- The text model's reply becomes `reply`. `None` stands for any failure of that call.

Behaviour of the code that the model keeps as it is:

- **A failed story fetch fails the whole request.** The fetches are awaited one by one inside one `try`, so the first failure sends the 500 response "Failed to fetch news" (`Feed.FetchAll`, `Feed.BuildFeed`). The same response follows a failed settings lookup, stored-news read or top-stories request.
- **A tag listed twice on an item counts twice** in the tag bonus (`News.MatchCountIsPositions`).
- **The feed is never filtered** and has no placeholder item: every stored item and every fetched story is returned.
- **HackerNews items get the tags `["tech"]`.**
- **The detail fetches run one after another**, and that is what `Feed.FetchStories` models.

## Model

| member | source | states |
|---|---|---|
| Text.ToLower | geminiTagGenerator.js:17 | lower-casing keeps the length, maps each character on its own (ASCII capitals to the matching small letters, everything else unchanged) and leaves no capital |
| Text.ToLowerIdempotent | geminiTagGenerator.js:17 | lower-casing twice is the same as lower-casing once |
| Text.ToLowerKeeps | geminiTagGenerator.js:17 | lower-casing keeps a trimmed string trimmed and introduces no comma, space or other non-letter that was not already there |
| Text.Trim | geminiTagGenerator.js:16 | the result of `trim` starts and ends with a non-whitespace character (or is empty) |
| Text.TrimInfix | geminiTagGenerator.js:16 | the result of `trim` is an infix of the input, and what lies before and after it is entirely whitespace |
| Text.TrimMembers | geminiTagGenerator.js:16 | `trim` adds no character |
| Text.TrimUnwraps | geminiTagGenerator.js:16 | a trimmed string surrounded by any whitespace trims back to itself, so `trim` removes exactly the surrounding whitespace |
| Text.TrimOfTrimmed | geminiTagGenerator.js:16-17 | `trim` is the identity on trimmed strings (so trimming twice changes nothing) |
| Text.Split | geminiTagGenerator.js:17 | `split` on one character gives one more piece than there are separators, and no piece contains the separator |
| Text.JoinSplit | geminiTagGenerator.js:17 | joining the pieces of a split with the separator gives back the original string |
| Text.SplitJoin | geminiTagGenerator.js:17 | splitting a join of separator-free pieces gives back exactly those pieces |
| TagGenerator.NormalizeTag | geminiTagGenerator.js:17 | each normalised piece is trimmed and has no capital |
| TagGenerator.NormalizeTagNormal | geminiTagGenerator.js:17 | a comma-free piece normalises to a trimmed, lower-case, comma-free tag |
| TagGenerator.ParseReply | geminiTagGenerator.js:16-17 | a reply yields one tag per comma of the trimmed reply plus one (never zero tags), each trimmed, without capitals and without commas |
| TagGenerator.ParseReplyRoundTrip | geminiTagGenerator.js:16-17 | a reply made of normal tags joined by commas parses back to exactly those tags |
| TagGenerator.NormalizeAll | geminiTagGenerator.js:17 | the map gives one tag per piece, the normalisation of the piece at the same position |
| TagGenerator.LongWords | geminiTagGenerator.js:24 | the length filter returns no more words than it is given, each longer than four characters |
| TagGenerator.LongWordsCount | geminiTagGenerator.js:24 | the filter keeps as many words as there are positions holding a word longer than four characters, repeats included |
| TagGenerator.LongWordsMembers | geminiTagGenerator.js:24 | the length filter keeps a word if and only if it is one of the words and is longer than four characters |
| TagGenerator.LongWordsInOrder | geminiTagGenerator.js:24 | the filtered words are a subsequence of the words, in their original order |
| TagGenerator.Lowered | geminiTagGenerator.js:26 | the map keeps the number of words and lower-cases the word at each position |
| TagGenerator.FallbackTags | geminiTagGenerator.js:22-26 | the fallback yields min(5, number of long title words) tags, each longer than four characters, without capitals and without spaces |
| TagGenerator.FallbackInTitleOrder | geminiTagGenerator.js:22-26 | the fallback tags are the lower-cased first long words of the title, a prefix of the long words and a subsequence of the title's words |
| TagGenerator.FallbackKeepsAllFew | geminiTagGenerator.js:22-26 | with at most five long words, the fallback lower-cases all of them |
| TagGenerator.FallbackExample | geminiTagGenerator.js:22-26 | "The Quick Brown Fox Jumps" falls back to ["quick", "brown", "jumps"] |
| TagGenerator.GenerateTags | geminiTagGenerator.js:6-28 | tags are always lower-case; with a reply there is at least one, each trimmed and comma-free; without one there are at most five, each longer than four characters |
| News.PopularityBase | index.js:34 | the base is the item's popularity when it has one, else 0 |
| News.MatchCount | index.js:36 | the match count never exceeds the number of item tags and is zero when the user follows no tag |
| News.MatchCountIsPositions | index.js:36 | the match count equals the number of positions of the item's tags whose tag the user follows (repeats counted) |
| News.MatchCountZero | index.js:36 | the match count is zero if and only if no item tag is followed |
| News.MatchCountFull | index.js:36 | the match count equals the number of item tags if and only if every item tag is followed |
| News.TagBonus | index.js:35-38 | the tag bonus is between 0 and ten per item tag, zero without item tags or without followed tags, and otherwise ten per matching position |
| News.HoursSince | index.js:39 | the age in hours times 3,600,000 is the age in milliseconds, and it is non-negative for an item not dated in the future |
| News.RecencyBonus | index.js:39-40 | the recency bonus is non-negative, zero exactly from 50 hours (180,000,000 ms) of age, at most 50 for an item not dated in the future, and exactly 50 at age zero |
| News.RecencyNonIncreasing | index.js:39-40 | scoring the same item later never increases its recency bonus |
| News.ComputeScore | index.js:33-42 | the score is the popularity base plus the tag bonus plus the recency bonus; it is at least the popularity base (the popularity, or 0 when it is falsy) and, for an item not dated in the future, at most base + 10 × number of tags + 50 |
| News.ScoreExample | index.js:33-42 | popularity 100, one followed tag, ten hours old: the score is 150 |
| News.WithDefaults | index.js:163-169 | the stored item keeps the body's title and url, is stamped with `now`, and keeps a truthy source/popularity and any supplied tags, else gets "unknown", 0 and [] |
| News.WithDefaultsIdempotent | index.js:163-169 | posting a stored item again reproduces it up to the new timestamp |
| News.WithDefaultsIgnoresTimestamp | index.js:165 | a timestamp in the body has no effect on the stored item |
| News.FreshPostScore | index.js:165 | a freshly posted item scored at its posting time gets the full recency bonus of 50 |
| Ranking.RankAll | index.js:152 | the score map keeps the number and order of items, leaves every item unchanged and attaches `computeScore` of that item |
| Ranking.RankAllAppend | index.js:148-152 | scoring the merged list is scoring the stored items followed by scoring the fetched ones |
| Ranking.SortedByRank | index.js:153 | the stable descending sort keeps the number of items (its order, permutation and stability are the three lemmas below) |
| Ranking.SortedByRankPermutes | index.js:153 | the sort is a permutation: the multiset of items is unchanged |
| Ranking.SortedByRankSorted | index.js:153 | the sorted sequence has non-increasing `rankScore` |
| Ranking.SortedByRankStable | index.js:153 | the sort is stable: for every score, the items with that score keep their relative order |
| Ranking.InsertInPlace | index.js:153 | one insertion-sort step places `a[i]` into the sorted prefix exactly as the functional insertion does, leaving the rest of the array unchanged |
| Ranking.SortByRank | index.js:153 | the in-place sort leaves the array equal to the functional stable sort of its old contents |
| News.FromStory | index.js:86-93 | the pushed record keeps the story's title, url and score (as popularity), has source "HackerNews" and tags ["tech"], and is dated `time * 1000` ms |
| Feed.UserTags | index.js:75 | the followed tags are the settings' tags when present and [] when there is no settings document or no tags |
| Feed.TopIds | index.js:82 | at most ten ids are taken, they are a prefix of the list, and the whole list is taken when it has ten or fewer |
| Feed.FetchAll | index.js:83-94 | fetching succeeds if and only if every id's detail is available; then there is one record per id, in id order, built from that story; otherwise the error is "Failed to fetch news" |
| Feed.HackerNewsItems | index.js:82-94 | every fetched record has source "HackerNews", tags ["tech"], timestamp `time * 1000` and the story's score as popularity, and there are at most ten |
| Feed.FetchStories | index.js:83-94 | the fetch loop returns exactly what `FetchAll` specifies, stopping at the first unavailable story |
| Feed.RankInto | index.js:152 | the map loop fills a new array with exactly the scored copies `RankAll` specifies |
| Feed.BuildFeed | index.js:71-159 | the handler succeeds if and only if the settings lookup, the stored-news read and the top-stories request succeed and every top story can be fetched; otherwise it fails with "Failed to fetch news". On success the feed is the stable descending sort of stored-then-fetched scored items: as many as the stored items plus the top ids, each exactly once, in non-increasing score order |

## Left out

- Text.ToLower: lower-cases only the ASCII letters A–Z. JavaScript's `toLowerCase` also maps other Unicode capitals. This contract is weaker than the source's behaviour on non-ASCII text.
- String lengths: JavaScript measures them in UTF-16 code units and Dafny counts characters. The "longer than four characters" test can therefore differ for text outside the Basic Multilingual Plane.
- Numbers are exact: the score is a `real` and time is an integer. Floating-point rounding, `NaN` and `Infinity` are not modelled. These include the `NaN` score of an item whose timestamp is missing or is not a valid date, and the `NaN` comparator results in the sort.
- Dynamic typing is not modelled: `tags` that are not an array, a `popularity` given as a string, or a `title` that is not a string (the fallback would throw on it).
- The spread `...req.body` copies every other body field into the stored item. Only the fields the feed reads are modelled.
- Database access, Express routing, CORS, `listen` and JWT verification are external collaborators or glue. Their results, or their failures, enter as parameters.
- Feed.BuildFeed: the error object each failing read throws is not modelled, only the fact that it failed, because the handler replaces every error with the same 500 response. The `console.error` logging of that error (index.js:157), and of a failed text-model call (geminiTagGenerator.js:19), is output only and is left out.
- The routes for users, bookmarks, settings and payment intents are glue with no logic of their own, and so are the Stripe and axios calls.
- The text-model call: the prompt text and the model are not modelled. Its reply, or its failure, is the parameter `reply`.
- The commented-out Reddit and X fetchers are not part of the running code.
- Concurrency between requests and the asynchronous suspension points: each request is modelled as one sequential computation.
