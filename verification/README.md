# ww-tweeter hashtag analysis, modelled in Dafny

ww-tweeter fetches the recent tweets of one account and is meant to count
the hashtags in them. As written, the counter raises before it counts
anything (see "## Findings"). Even with that fixed, its anchored pattern
picks no hashtag out of running tweet text (see below). Storing tweets and
counts in a database for a small web view is planned, but the storage
helpers in `app/db/db.py` are still empty stubs, and `main` would stop
with a `TypeError` at `db.add_tweets(tweets=tweets)`
(app/tweeter/tweeter.py:148), before reaching the counter (see
"## Left out").

Almost all of it is glue around a Twitter client, an ORM and a web
framework. This project models the three parts that carry behaviour of
their own.

- **Hashtag count-and-rank** (`hashtag_counter` in `app/tweeter/tweeter.py`).
  It lower-cases each tweet's text and joins the texts with single spaces.
  It collects every `findall` match of the valid-hashtag pattern. It counts
  the matches with `collections.Counter`, orders them with `most_common()`
  and turns the result into a dict. The cap in `get_top_n_tweets` is
  modelled too: at most `TWEET_SLICE` = 500 tweets are taken from the
  timeline.
- **Valid-hashtag pattern and database URL choice** (`app/db/db.py`). The
  pattern is `^[a-z0-9]+$`. `_create_session` picks `DB_TEST_URL` when the
  program name contains "pytest" and `DB_URL` otherwise. It raises
  `EnvironmentError` when the chosen URL is unset.
- **Session test double** (`app/__dev__/class_inheritance_testing.py`).
  `query` records a pending transaction, `commit` clears them,
  `in_transaction` reports whether any are pending, and
  `order_by(x).all()` returns `x`.

Modules:

| file | module | models |
|---|---|---|
| outcomes.dfy | `Outcomes` | `None`-or-value, return-or-raise, the Python exceptions raised |
| tweet_record.dfy | `TweetRecord` | a tweet, with the field list of the `Tweet` namedtuple of `app/tweeter.py` (id, text, created, likes, retweets), standing for the status objects the timeline cursor yields |
| text.dfy | `Text` | `str.lower()`, `' '.join`, and `str.split(' ')` as the join's inverse |
| hashtag_pattern.dfy | `HashtagPattern` | the pattern, the regex engine's scan for `findall`, and `findall` on a `str` |
| counting.dfy | `Counting` | `Counter(iterable)`, `most_common()`, `dict(pairs)`, generic over the token type |
| db_config.dfy | `DbConfig` | the two URL constants and the URL choice of `_create_session` |
| tweeter.dfy | `Tweeter` | the `TWEET_SLICE` cap and `hashtag_counter` |
| session_mocks.dfy | `SessionMocks` | `SessionMock`, `QueryMock`, `OrderByMock`, and runs of calls on one session |

## What the anchored pattern does to the counter

The pattern is anchored at both ends and carries no MULTILINE flag.
`findall` applies it to the whole joined text, so `^` can only succeed at
position 0 and `$` only at the end of the text or before one final newline.
`findall` therefore returns at most one match. That match is the whole
working text, less one trailing newline, and only when the text is nothing
but lower-case ASCII letters and digits.

The consequences are proved:
- the counter's dict has at most one entry (`Tweeter.HashtagCounterAtMostOne`);
- two or more tweets never yield a hashtag, because the join inserts a space
  (`Tweeter.SeveralTweetsCountNothing`);
- a hashtag written with its `#` is never counted: in a single tweet the `#`
  rules out the match (`Tweeter.ForeignCharInOneTweet`), and with several
  tweets nothing is counted at all (`Tweeter.SeveralTweetsCountNothing`);
  the tweet "#brand" is one example (`Tweeter.MarkedHashtagNotCounted`).

The model keeps this literal behaviour. The ranking itself (`Counting.Rank`)
is generic over any token list and is proved for any number of tokens, so
it also covers a per-token matching stage, should one replace the anchored
search.

One more detail of the pattern matters.
`$` accepts a final newline, so a text such as `abc` followed by a newline
still yields `abc` (`HashtagPattern.TrailingNewlineTolerated`). Any other
character outside `[a-z0-9]` rules out the match
(`HashtagPattern.ForeignCharRejects`).

## Model

| member | source | states |
|---|---|---|
| `Counting.Bump` | app/tweeter/tweeter.py:113-114 | `counter[t] += 1`, counting one token; its effect is stated by `Counting.BumpAppends`, `Counting.BumpUpdates`, `Counting.BumpTotal` and `Counting.BumpKeys` |
| `Counting.BumpAppends` | app/tweeter/tweeter.py:113-114 | counting a token not yet in the counter appends it at the end with count 1 |
| `Counting.BumpUpdates` | app/tweeter/tweeter.py:113-114 | counting a token already in the counter adds one to its entry in place and changes no other entry |
| `Counting.BumpTotal` | app/tweeter/tweeter.py:113-114 | each counted token raises the total by exactly one |
| `Counting.BumpKeys` | app/tweeter/tweeter.py:113-114 | counting keeps keys distinct; a new key goes at the end and existing keys keep their order |
| `Counting.Tally` | app/tweeter/tweeter.py:113-114 | `Counter(tokens)` has distinct keys, and its keys are exactly the tokens that occur |
| `Counting.TallyCounts` | app/tweeter/tweeter.py:113-114 | every count equals the number of occurrences of its token in the match list |
| `Counting.TallyTotal` | app/tweeter/tweeter.py:113-115 | the counts add up to the number of matches |
| `Counting.TallyStepNew` | app/tweeter/tweeter.py:113-114 | one more token that is new to the counter extends it by that token with count 1 |
| `Counting.TallyStepSeen` | app/tweeter/tweeter.py:113-114 | one more token the counter already holds increments that token's entry in place |
| `Counting.TallyFirstSeenOrder` | app/tweeter/tweeter.py:113-114 | the counter lists its keys in order of each token's first occurrence |
| `Counting.InsertDesc` | app/tweeter/tweeter.py:115 | one insertion step of the sort: a permutation that adds the inserted count to the total |
| `Counting.InsertDescSorted` | app/tweeter/tweeter.py:115 | an insertion step keeps a list sorted by descending count |
| `Counting.MostCommon` | app/tweeter/tweeter.py:115 | `most_common()` is a permutation of the counter with the same total, sorted by non-increasing count |
| `Counting.InsertDescRanked` | app/tweeter/tweeter.py:115 | inserting an entry that ranks before all others keeps the order by count, then rank |
| `Counting.MostCommonStable` | app/tweeter/tweeter.py:115 | the sort is stable: among equal counts, the input order is kept |
| `Counting.RankedHeads` | app/tweeter/tweeter.py:115 | two orderings of the same entries by descending count, ties broken by a strict rank, start with the same entry |
| `Counting.RankedUnique` | app/tweeter/tweeter.py:115 | two orderings of the same entries by descending count, ties broken by a strict rank, are equal |
| `Counting.StableSortIsMostCommon` | app/tweeter/tweeter.py:115 | any permutation of the counter sorted stably by descending count is exactly `most_common()`, whatever sorting algorithm produced it |
| `Counting.InsertDescKeys` | app/tweeter/tweeter.py:115 | an insertion step adds exactly the inserted key and keeps keys distinct |
| `Counting.MostCommonKeys` | app/tweeter/tweeter.py:115 | sorting keeps the key set and the distinctness of keys |
| `Counting.Put` | app/tweeter/tweeter.py:118 | a dict assignment keeps the key list, appending a new key at the end |
| `Counting.PutExisting` | app/tweeter/tweeter.py:118 | assigning to a key already present replaces its entry in place with the new count and changes no other entry |
| `Counting.DictOf` | app/tweeter/tweeter.py:118 | `dict(pairs)` has distinct keys and the same key set, and returns pairs with distinct keys unchanged and in order |
| `Counting.DictOfLastWins` | app/tweeter/tweeter.py:118 | every entry of `dict(pairs)` is the last pair with its key: a repeated key takes the count assigned last |
| `Counting.DictOfKeyOrder` | app/tweeter/tweeter.py:118 | the keys of `dict(pairs)` come in the order in which each key first occurs in the pairs, the same order `Counter` gives them |
| `Counting.Rank` | app/tweeter/tweeter.py:113-118 | `dict(Counter(tokens).most_common())`; its keys, counts, total and order are stated by `Counting.RankKeys`, `Counting.RankCounts`, `Counting.RankTotal` and `Counting.RankStable` |
| `Counting.RankKeys` | app/tweeter/tweeter.py:113-118 | the ranked dict's keys are distinct and are exactly the matched tokens; the dict conversion changes nothing |
| `Counting.RankTotal` | app/tweeter/tweeter.py:113-118 | the ranked counts sum to the number of matches |
| `Counting.RankCounts` | app/tweeter/tweeter.py:113-118 | each ranked count is its token's number of matches, and the counts sum to the number of matches |
| `Counting.RankStable` | app/tweeter/tweeter.py:113-118 | the ranked dict is ordered by descending count and, among equal counts, by each token's first match |
| `Counting.RankOrder` | app/tweeter/tweeter.py:113-118 | entries are in non-increasing count order, and equal counts are ordered by each token's first match |
| `Counting.RankByFrequency` | app/tweeter/tweeter.py:113-118 | tokens a, a, b rank as a:2 then b:1 |
| `Counting.TallyXYYX` | app/tweeter/tweeter.py:113-114 | the counter of x, y, y, x is x:2 then y:2, the order of first occurrence |
| `Counting.RankTiesByFirstOccurrence` | app/tweeter/tweeter.py:113-118 | tokens x, y, y, x rank as x:2 then y:2, the order of first occurrence |
| `HashtagPattern.RunEnd` | app/db/db.py:29 | the greedy `[a-z0-9]+` stops at the first character outside the class |
| `HashtagPattern.RunEndCovers` | app/db/db.py:29 | the greedy run reaches at least as far as any stretch of class characters |
| `HashtagPattern.MatchAt` | app/db/db.py:29 | an attempt succeeds only at position 0, and exactly when some prefix is class characters followed by the end (or a final newline); that match end is unique, so backtracking changes nothing |
| `HashtagPattern.Matches` | app/tweeter/tweeter.py:114 | `findall` on a whole text yields at most one match, and every match is a valid hashtag |
| `HashtagPattern.MatchAtStart` | app/tweeter/tweeter.py:114 | the engine's attempt at position 0 agrees with the declarative `Matches` |
| `HashtagPattern.FindAll` | app/tweeter/tweeter.py:114 | scanning every start position from left to right, resuming after each match, yields exactly `Matches(text)` |
| `HashtagPattern.IsValidHashtag` | app/db/db.py:29 | a string the pattern matches in full; `HashtagPattern.MatchesWholeCandidate` proves that `findall` (`HashtagPattern.Matches`) returns a whole candidate exactly when it is one of these, and `HashtagPattern.MatchAtStart` ties that to the engine model |
| `HashtagPattern.MatchesWholeCandidate` | app/db/db.py:29 | the pattern matches a whole candidate iff it is non-empty and all ASCII lower-case letters or digits |
| `HashtagPattern.ForeignCharRejects` | app/db/db.py:29 | a `#`, space, upper-case letter or punctuation anywhere (other than a final newline) means no match |
| `HashtagPattern.TrailingNewlineTolerated` | app/db/db.py:29 | a valid hashtag followed by one newline is still matched, without the newline |
| `HashtagPattern.RunningTextYieldsNothing` | app/db/db.py:29 | "brand today" and "#brand" give no match; "brand" gives itself |
| `HashtagPattern.FindAllOn` | app/tweeter/tweeter.py:114 | `.findall` on a `str` raises `AttributeError`; on the compiled pattern it returns at most one valid hashtag |
| `DbConfig.GetEnv` | app/db/db.py:27-28 | `getenv` with default `None`: present iff the variable is set, and then its value |
| `DbConfig.LoadSettings` | app/db/db.py:27-28 | each URL constant is `None` exactly when its variable is unset, and otherwise holds its value |
| `DbConfig.Contains` | app/db/db.py:54 | Python's `in` on strings; `DbConfig.ContainsIffOccurs` proves it is occurrence at some index |
| `DbConfig.ContainsIffOccurs` | app/db/db.py:54 | the `in` test holds iff "pytest" occurs at some index of the program name |
| `DbConfig.SelectDbUrl` | app/db/db.py:54-63 | the test URL if the program name contains "pytest", the production URL otherwise; `EnvironmentError` if the chosen one is `None`; `IndexError` with no program name |
| `DbConfig.SessionUrl` | app/db/db.py:27-63 | the URL bound is always the value of `DB_URL` or of `DB_TEST_URL`, and the only errors are `IndexError` and `EnvironmentError` |
| `DbConfig.NoFallback` | app/db/db.py:54-63 | the URL that was not chosen has no influence on the outcome |
| `DbConfig.SessionUrlSucceedsIff` | app/db/db.py:54-68 | selection succeeds iff the chosen variable is set, passes on exactly its value, and otherwise raises the documented `EnvironmentError` |
| `DbConfig.UnsetEnvironmentFails` | app/db/db.py:27-63 | with neither variable set, both URLs are `None` and every run raises `EnvironmentError` |
| `DbConfig.ProgramNameSelects` | app/db/db.py:54-57 | "pytest" selects `DB_TEST_URL`; another program name selects `DB_URL` |
| `Text.LowerChar` | app/tweeter/tweeter.py:110 | a lower-cased character is never an ASCII capital; capitals map to their lower-case letter, others are kept |
| `Text.Lower` | app/tweeter/tweeter.py:110 | `str.lower()` keeps the length and lower-cases each character in place |
| `Text.LowerIdempotent` | app/tweeter/tweeter.py:110 | lower-casing twice equals lower-casing once and leaves no ASCII capital |
| `Text.JoinSpaced` | app/tweeter/tweeter.py:110 | `' '.join(parts)`; `Text.JoinSpacedLength`, `Text.SplitJoin` and `Text.JoinSplit` state what it keeps |
| `Text.SplitSpaces` | app/tweeter/tweeter.py:110 | `str.split(' ')`, the inverse of the join on line 110: always at least one piece; `Text.SplitJoin` and `Text.JoinSplit` prove the round trips |
| `Text.JoinSpacedLength` | app/tweeter/tweeter.py:110 | the join adds exactly one character per gap between parts |
| `Text.SplitJoin` | app/tweeter/tweeter.py:110 | when no part holds a space, splitting the join on spaces gives back the parts |
| `Text.JoinSplit` | app/tweeter/tweeter.py:110 | joining the pieces of a split on spaces gives back the text |
| `Text.JoinLowerCommute` | app/tweeter/tweeter.py:110 | joining the lower-cased texts equals lower-casing the joined texts |
| `Tweeter.Islice` | app/tweeter/tweeter.py:86-88 | `islice(items, n)` is the prefix of length min(n, number of items) |
| `Tweeter.TopNTweets` | app/tweeter/tweeter.py:86-88 | with `TWEET_SLICE` = 500, the tweets handed on are a prefix of the timeline of length min(500, timeline length) |
| `Tweeter.TopNTweetsIsCappedPrefix` | app/tweeter/tweeter.py:86-88 | with `TWEET_SLICE` = 500, the tweets handed on are the first min(500, n) of the timeline, unchanged and in order |
| `Tweeter.IsliceTwice` | app/tweeter/tweeter.py:86-88 | slicing twice equals slicing once at the smaller stop, so the cap is idempotent |
| `Tweeter.LoweredTexts` | app/tweeter/tweeter.py:110 | one lower-cased text per tweet, in input order |
| `Tweeter.WorkingText` | app/tweeter/tweeter.py:110 | the lower-cased texts joined with single spaces; `Tweeter.WorkingTextShape` proves it splits back into the lower-cased texts |
| `Tweeter.WorkingTextShape` | app/tweeter/tweeter.py:110 | the working text is the lower-cased space-join, and splits back into the lower-cased tweet texts when none holds a space |
| `Tweeter.HashtagCounterWith` | app/tweeter/tweeter.py:110-120 | with the pattern bound as a `str` the counter raises `AttributeError`; with a compiled pattern it returns a result |
| `Tweeter.HashtagCounter` | app/tweeter/tweeter.py:110-120 | `hashtag_counter` with the compiled pattern; `Tweeter.HashtagCounterSpec` and `Tweeter.HashtagCounterAtMostOne` state its result |
| `Tweeter.AsWrittenAlwaysRaises` | app/tweeter/tweeter.py:114 | as written, every call raises, even with no tweets, where the intended result is an empty dict |
| `Tweeter.CompiledCounterSucceeds` | app/tweeter/tweeter.py:110-120 | with the compiled pattern the counter never raises and returns the ranked count of the matches |
| `Tweeter.HashtagCounterSpec` | app/tweeter/tweeter.py:110-120 | result keys are distinct valid hashtags and exactly the matched tokens; counts are occurrence counts summing to the number of matches; counts are non-increasing, ties in first-match order |
| `Tweeter.HashtagCounterAtMostOne` | app/tweeter/tweeter.py:110-120 | the result is empty or the single match with count 1 |
| `Tweeter.NoTweetsNoHashtags` | app/tweeter/tweeter.py:110-120 | no tweets give an empty working text and an empty dict |
| `Tweeter.OneWordTweet` | app/tweeter/tweeter.py:110-120 | a single tweet "Brand" gives brand:1 |
| `Tweeter.ForeignCharInOneTweet` | app/tweeter/tweeter.py:110-120 | a single tweet with a character that is outside `[a-z0-9]` once lower-cased (other than a newline) gives an empty dict |
| `Tweeter.SeveralTweetsCountNothing` | app/tweeter/tweeter.py:110-120 | two or more tweets always give an empty dict |
| `Tweeter.MarkedHashtagNotCounted` | app/tweeter/tweeter.py:110-120 | a tweet "#brand" gives an empty dict |
| `SessionMocks.OrderBy` | app/__dev__/class_inheritance_testing.py:56-72 | `order_by(x)` builds an object whose `all()` is `x` |
| `SessionMocks.OrderByAllIsIdentity` | app/__dev__/class_inheritance_testing.py:26-72 | `order_by(x).all()` returns `x` unchanged |
| `SessionMocks.NewSession` | app/__dev__/class_inheritance_testing.py:79-83 | a fresh session has no pending transactions |
| `SessionMocks.InTransaction` | app/__dev__/class_inheritance_testing.py:100-120 | `in_transaction()` is true exactly when some transaction is pending |
| `SessionMocks.Commit` | app/__dev__/class_inheritance_testing.py:85-98 | after `commit()` the transaction list is empty and `in_transaction()` is false |
| `SessionMocks.Query` | app/__dev__/class_inheritance_testing.py:122-142 | `query(t)` appends exactly one new query object, not already pending, and returns that same object |
| `SessionMocks.Delete` | app/__dev__/class_inheritance_testing.py:44-54 | `delete()` leaves the session, and so its transaction list, unchanged |
| `SessionMocks.QueryOrderByAll` | app/__dev__/class_inheritance_testing.py:1-6 | `session.query(t).order_by(x).all()` returns `x` and leaves one more pending transaction |
| `SessionMocks.ObserversChangeNothing` | app/__dev__/class_inheritance_testing.py:100-120 | `in_transaction()` is true iff the list is non-empty and changes nothing; `delete()` returns `None` and changes nothing |
| `SessionMocks.StepKeepsValid` | app/__dev__/class_inheritance_testing.py:122-142 | every call keeps the pending objects distinct; a query call returns the object it appended |
| `SessionMocks.RunKeepsValid` | app/__dev__/class_inheritance_testing.py:122-142 | over any sequence of calls, the pending objects stay distinct |
| `SessionMocks.RunWithoutCommit` | app/__dev__/class_inheritance_testing.py:122-142 | without a commit, the pending transactions are the earlier ones followed by the objects the query calls returned, in order, one per query call |
| `SessionMocks.PendingSinceLastCommit` | app/__dev__/class_inheritance_testing.py:85-142 | the pending transactions are exactly the objects returned by the query calls since the last commit, in order; their number is the number of such calls, and `in_transaction()` is true iff there was one |
| `SessionMocks.CommitEndsTransaction` | app/__dev__/class_inheritance_testing.py:79-98 | a fresh session is not in a transaction, and neither is one whose last call was `commit()` |

## Findings

| source | as written | input that shows it | evidently intended | confidence | as-written member | corrected member |
|---|---|---|---|---|---|---|
| app/db/db.py:29 | `VALID_HASHTAG` is bound to the pattern's source as a plain `str`, and `hashtag_counter` calls `.findall` on it (app/tweeter/tweeter.py:114), so every call raises `AttributeError` | any tweet list, including the empty one | bind the compiled pattern, `re.compile` of the same source | high; not executed | `Tweeter.AsWrittenAlwaysRaises` | `Tweeter.CompiledCounterSucceeds` |

The rest of the model uses the compiled pattern (`Tweeter.HashtagCounter`).

## Left out

- Twitter authentication and fetching (app/tweeter/tweeter.py:32-61, 79-84) are network calls to a third-party client. The timeline cursor is a finite sequence of tweets; lazy paging, timeouts and API errors are not modelled.
- `main` (app/tweeter/tweeter.py:123-156) truncates the tables, authenticates, fetches the tweets, stores them, counts the hashtags and stores the counts. Authentication and fetching are network calls, covered above. The storage helpers in app/db/db.py:89-116 are empty stubs that take no parameters and return `None`. So the call `db.add_tweets(tweets=tweets)` at app/tweeter/tweeter.py:148 would raise `TypeError`, before the counter is reached. `main` as a whole is not modelled; `hashtag_counter`, which it calls, is.
- Engine creation, table creation, `Session.configure` and the global session (app/db/db.py:65-86) are database I/O. `DbConfig.SessionUrl` stops at the URL handed to the engine.
- `dotenv.load_dotenv()` reads a file. The environment is a map given as a parameter.
- The ORM classes (app/db/db_models.py), the web layer (app/web/web.py), `current_time` in app/ww_tweeter.py and the scratch scripts under app/__dev__ (other than the session double) are outside the model. The tests need live credentials, a database or the clock.
- `Text.Lower`, `Text.LowerChar`: only ASCII capitals are lower-cased. Python's `str.lower()` also maps other characters, some of them into ASCII (KELVIN SIGN to `k`, for one), and a few into two characters. Those mappings are not modelled.
- `Counting.MostCommon` is an insertion sort; CPython uses Timsort. `Counting.StableSortIsMostCommon` shows that every stable sort by descending count gives the same order. That Timsort is stable is the documented guarantee of `sorted`; the model does not model Timsort itself.
- `TweetRecord.Tweet` borrows the namedtuple's field list, which the program never constructs, and gives `id` and `created` integer types (the creation time in seconds). The cursor yields the Twitter client's status objects; the hashtag counter reads only their `text`.
- `SessionMocks` treats the mock as a value that each call returns anew. Python's in-place list mutation and object identity are represented by handles.
- `SessionMocks.OrderBy` takes the result list itself, as the mock does, not an ordering criterion.
- `delete()` on a query object returned by `query` (app/__dev__/class_inheritance_testing.py:44-54), and `order_by` on the session, which inherits it from `QueryMock` (line 76), are not steps of a run, because neither changes any state. `SessionMocks.Delete` models `delete()` on the session.
