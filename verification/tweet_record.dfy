/** A tweet, with the field list of the `Tweet` namedtuple of
    app/tweeter.py. That namedtuple is never constructed: the timeline
    cursor yields the Twitter client's status objects, and the hashtag
    counter reads only their `text`. */
module TweetRecord {

  /** One tweet: its numeric id, its text, its creation time (seconds since
      the epoch), and its like and retweet counts. */
  datatype Tweet = Tweet(id: int, text: string, created: int, likes: nat, retweets: nat)
}
