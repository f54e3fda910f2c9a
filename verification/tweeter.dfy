/** The analysis part of app/tweeter/tweeter.py: the cap on the number of
    tweets taken from the timeline cursor (`get_top_n_tweets`), and the
    hashtag count-and-rank (`hashtag_counter`). */
module Tweeter {
  import opened Outcomes
  import opened TweetRecord
  import opened Text
  import opened HashtagPattern
  import opened Counting

  // ---------------------------------------------------------------------
  // get_top_n_tweets: the TWEET_SLICE cap
  // ---------------------------------------------------------------------

  /** `TWEET_SLICE`: at most this many tweets are taken; `None` would mean
      no cap. */
  const TweetSlice: Option<nat> := Some(500)

  /** `islice(items, stop)`: the items before position `stop`, in order. */
  function Islice<X>(items: seq<X>, stop: nat): (r: seq<X>)
    ensures |r| == if stop < |items| then stop else |items|
    ensures r <= items
  {
    if stop < |items| then items[..stop] else items
  }

  /** The tweets `get_top_n_tweets` hands on, for a cursor that yields the
      timeline as `cursor`. */
  function TopNTweets(cursor: seq<Tweet>): (r: seq<Tweet>)
    ensures r <= cursor
    ensures |r| == if |cursor| < 500 then |cursor| else 500
  {
    match TweetSlice
    case Some(n) => Islice(cursor, n)
    case None => cursor
  }

  /** The cap keeps the first min(500, |cursor|) tweets, unchanged and in
      order, and a short timeline whole. */
  lemma TopNTweetsIsCappedPrefix(cursor: seq<Tweet>)
    ensures |TopNTweets(cursor)| == if |cursor| < 500 then |cursor| else 500
    ensures forall i :: 0 <= i < |TopNTweets(cursor)| ==> TopNTweets(cursor)[i] == cursor[i]
    ensures |cursor| <= 500 ==> TopNTweets(cursor) == cursor
  {
  }

  /** Slicing twice is slicing once at the smaller stop; in particular the
      cap is idempotent. */
  lemma IsliceTwice<X>(items: seq<X>, a: nat, b: nat)
    ensures Islice(Islice(items, a), b) == Islice(items, if a < b then a else b)
  {
  }

  // ---------------------------------------------------------------------
  // hashtag_counter
  // ---------------------------------------------------------------------

  /** Each tweet's text, lower-cased, in input order. */
  function LoweredTexts(tweets: seq<Tweet>): (texts: seq<string>)
    ensures |texts| == |tweets|
    ensures forall i :: 0 <= i < |tweets| ==> texts[i] == Lower(tweets[i].text)
  {
    seq(|tweets|, i requires 0 <= i < |tweets| => Lower(tweets[i].text))
  }

  /** `' '.join(tweet.text.lower() for tweet in tweets)`. */
  function WorkingText(tweets: seq<Tweet>): string {
    JoinSpaced(LoweredTexts(tweets))
  }

  /** The working text is the lower-cased join of the raw texts and, when no
      text holds a space, splits back into exactly the lower-cased texts:
      one space between consecutive tweets, none at the ends, nothing
      reordered or lost. */
  lemma WorkingTextShape(tweets: seq<Tweet>)
    ensures WorkingText(tweets) == Lower(JoinSpaced(seq(|tweets|, i requires 0 <= i < |tweets| => tweets[i].text)))
    ensures |tweets| > 0 && (forall i :: 0 <= i < |tweets| ==> ' ' !in tweets[i].text) ==>
      SplitSpaces(WorkingText(tweets)) == LoweredTexts(tweets)
  {
    var raw := seq(|tweets|, i requires 0 <= i < |tweets| => tweets[i].text);
    JoinLowerCommute(raw);
    assert LoweredTexts(tweets) == seq(|raw|, k requires 0 <= k < |raw| => Lower(raw[k]));
    if |tweets| > 0 && (forall i :: 0 <= i < |tweets| ==> ' ' !in tweets[i].text) {
      var texts := LoweredTexts(tweets);
      forall k | 0 <= k < |texts|
        ensures ' ' !in texts[k]
      {
        assert forall j :: 0 <= j < |texts[k]| ==> texts[k][j] == LowerChar(tweets[k].text[j]);
      }
      SplitJoin(texts);
    }
  }

  /** `hashtag_counter` with `VALID_HASHTAG` bound to `p`: join, match,
      count, rank, and convert to a dict. */
  function HashtagCounterWith(p: PatternValue, tweets: seq<Tweet>): (r: Result<seq<Entry<string>>, PyError>)
    ensures p.PlainString? ==> r == Failure(AttributeError(NoFindallMessage))
    ensures p.Compiled? ==> r.Success?
  {
    match FindAllOn(p, WorkingText(tweets))
    case Failure(e) => Failure(e)
    case Success(found) => Success(Rank(found))
  }

  /** `hashtag_counter` with the pattern compiled, as evidently intended. */
  function HashtagCounter(tweets: seq<Tweet>): seq<Entry<string>> {
    Rank(Matches(WorkingText(tweets)))
  }

  /** As written, `VALID_HASHTAG` is a plain string and every call raises
      `AttributeError`, even on no tweets at all, where the intended
      counter returns an empty dict. */
  lemma AsWrittenAlwaysRaises(tweets: seq<Tweet>)
    ensures HashtagCounterWith(PlainString, tweets) == Failure(AttributeError(NoFindallMessage))
    ensures HashtagCounterWith(PlainString, []) != Success(HashtagCounter([]))
  {
  }

  /** With the compiled pattern, the counter never raises and returns
      exactly the ranked count of the pattern's matches. */
  lemma CompiledCounterSucceeds(tweets: seq<Tweet>)
    ensures HashtagCounterWith(Compiled, tweets) == Success(HashtagCounter(tweets))
  {
  }

  /** What `hashtag_counter` promises: each matched token once, as a valid
      hashtag, with its number of matches; the counts add up to the number
      of matches; descending counts, ties in first-match order. */
  lemma HashtagCounterSpec(tweets: seq<Tweet>)
    ensures var found, r := Matches(WorkingText(tweets)), HashtagCounter(tweets);
      && DistinctKeys(r)
      && (forall w :: w in found <==> w in Keys(r))
      && (forall i :: 0 <= i < |r| ==> IsValidHashtag(r[i].key))
      && (forall i :: 0 <= i < |r| ==> r[i].count == multiset(found)[r[i].key])
      && Total(r) == |found|
      && NonIncreasing(r)
      && RankedBy(r, FirstSeenRank(found))
  {
    var found := Matches(WorkingText(tweets));
    RankKeys(found);
    RankCounts(found);
    RankOrder(found);
    RankStable(found);
  }

  /** Because the pattern is anchored and the text is searched whole, the
      dict has at most one entry: the whole working text (less a final
      newline) with count 1, when that is a valid hashtag. */
  lemma HashtagCounterAtMostOne(tweets: seq<Tweet>)
    ensures |HashtagCounter(tweets)| <= 1
    ensures HashtagCounter(tweets) != [] <==> Matches(WorkingText(tweets)) != []
    ensures Matches(WorkingText(tweets)) != [] ==>
      HashtagCounter(tweets) == [Entry(Matches(WorkingText(tweets))[0], 1)]
  {
    var found := Matches(WorkingText(tweets));
    RankKeys(found);
    RankCounts(found);
    var r := HashtagCounter(tweets);
    if found != [] {
      assert found == [found[0]];
      assert Keys(r)[0] == r[0].key;
      assert |r| == 1 by {
        forall i | 0 <= i < |r|
          ensures r[i].key == found[0]
        {
          assert Keys(r)[i] == r[i].key;
        }
      }
      assert multiset(found)[found[0]] == 1;
    }
  }

  /** No tweets give an empty dict, not an error. */
  lemma NoTweetsNoHashtags()
    ensures WorkingText([]) == ""
    ensures HashtagCounter([]) == []
  {
    HashtagCounterAtMostOne([]);
  }

  /** A single tweet whose whole text is one word is counted once,
      lower-cased. */
  lemma OneWordTweet()
    ensures HashtagCounter([Tweet(1, "Brand", 0, 0, 0)]) == [Entry("brand", 1)]
  {
    var tweets := [Tweet(1, "Brand", 0, 0, 0)];
    var lowered := Lower("Brand");
    assert lowered[0] == LowerChar('B') == 'b';
    assert lowered == "brand";
    assert WorkingText(tweets) == "brand";
    RunningTextYieldsNothing();
    HashtagCounterAtMostOne(tweets);
  }

  /** In a single tweet, any character that is not a lower-case letter or
      digit once lower-cased (a `#`, a space, punctuation) empties the
      result, unless it is a final newline. */
  lemma ForeignCharInOneTweet(tweets: seq<Tweet>, i: nat)
    requires |tweets| == 1 && i < |tweets[0].text|
    requires !IsHashtagChar(LowerChar(tweets[0].text[i]))
    requires tweets[0].text[i] != '\n'
    ensures HashtagCounter(tweets) == []
  {
    var text := WorkingText(tweets);
    assert text == Lower(tweets[0].text);
    ForeignCharRejects(text, i);
    HashtagCounterAtMostOne(tweets);
  }

  /** Two or more tweets never yield a hashtag: the join puts a space into
      the working text, and the anchored pattern then matches nothing. */
  lemma SeveralTweetsCountNothing(tweets: seq<Tweet>)
    requires |tweets| >= 2
    ensures HashtagCounter(tweets) == []
  {
    var texts := LoweredTexts(tweets);
    var text := WorkingText(tweets);
    assert text == texts[0] + " " + JoinSpaced(texts[1..]);
    assert text[|texts[0]|] == ' ';
    ForeignCharRejects(text, |texts[0]|);
    HashtagCounterAtMostOne(tweets);
  }

  /** A hashtag with its `#` marker is not counted. */
  lemma MarkedHashtagNotCounted()
    ensures HashtagCounter([Tweet(1, "#brand", 0, 0, 0)]) == []
  {
    ForeignCharInOneTweet([Tweet(1, "#brand", 0, 0, 0)], 0);
  }
}
