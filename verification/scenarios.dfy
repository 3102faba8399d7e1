/** Concrete examples of the ingestion function on small statuses. */
module Scenarios {
  import opened Wrappers
  import opened DateTimes
  import opened Raw
  import opened Models
  import opened Ingestion
  import opened Queries

  const Stamp := "Wed Oct 10 20:19:24 +0000 2018"

  /** A date parser that reads every string as the instant above. */
  const FixedParser: Parser := (text: string) => Some(TimeTuple(2018, 10, 10, 20, 19, 24, 2, 283, -1))

  /** A date parser that recognises nothing. */
  const NoParser: Parser := (text: string) => None

  const Author := RawUser(
    Present(7), Present("A"), Present("a"), Present(""), Present(None), Present(""),
    Present(Some(false)), Present(Some(false)),
    None, None, None, None, None,
    Present(Some(Stamp)),
    None, None, None, None, None)

  /** An original post whose reply count is corrupt (negative). */
  const Original := RawStatus(
    Present(Some(Author)), Present(100), Present("hi"), Present(false), Present(Some(Stamp)),
    None, Some(-1), None, None, None, None, None)

  /** The same post, edited. */
  const Edited := Original.(text := Present("hi edited"))

  /** A retweet of status 55. */
  const Retweet := Original.(id := Present(101), retweetedStatus := Some(RawRetweeted(Present(Some(55)))))

  lemma OriginalIsSavedSanitized()
    ensures
      var r := Ingest(EmptyStore, Original, false, FixedParser);
      && r.outcome.Saved?
      && r.outcome.tweet.replyCount == None
      && r.outcome.tweet.retweetedStatusId == None
      && !IsRetweet(r.outcome.tweet)
      && r.outcome.user.userId == 7
      && r.outcome.tweet.createdAt == DateTime(2018, 10, 10, 20, 19, 24)
      && r.store.tweets.Keys == {100}
      && r.store.users.Keys == {7}
  {
    assert ParseDatetime(FixedParser, Some(Stamp)) == Success(DateTime(2018, 10, 10, 20, 19, 24));
    assert RetweetedStatusId(Original) == Success(None);
    assert TweetSnapshot(Original, FixedParser).Success?;
    assert UserSnapshot(Original, FixedParser).Success?;
  }

  /** Re-ingesting the edited post keeps one row for tweet 100, with the new text. */
  lemma EditOverwrites()
    ensures
      var r1 := Ingest(EmptyStore, Original, false, FixedParser);
      var r2 := Ingest(r1.store, Edited, false, FixedParser);
      && r2.outcome.Saved?
      && r2.store.tweets.Keys == {100}
      && r2.store.tweets[100].text == "hi edited"
  {
    OriginalIsSavedSanitized();
    assert ParseDatetime(FixedParser, Some(Stamp)).Success?;
    assert TweetSnapshot(Edited, FixedParser).Success?;
    assert UserSnapshot(Edited, FixedParser).Success?;
  }

  /** With `save_rts` false the retweet is dropped; with it true, it is stored. */
  lemma RetweetFiltering()
    ensures Ingest(EmptyStore, Retweet, false, FixedParser) == Step(EmptyStore, Skipped)
    ensures
      var r := Ingest(EmptyStore, Retweet, true, FixedParser);
      r.outcome.Saved? && IsRetweet(r.outcome.tweet) && r.store.tweets.Keys == {101}
  {
  }

  /** A filtered retweet with a `null` author is skipped, not an error;
      the same status kept by `save_rts` fails on the `null` author. */
  lemma NullAuthorRetweet()
    ensures Ingest(EmptyStore, Retweet.(user := Present(None)), false, FixedParser).outcome == Skipped
    ensures Ingest(EmptyStore, Retweet.(user := Present(None)), true, FixedParser).outcome == Failed(UserNotObject)
  {
  }

  /** Missing keys and unparsable dates fail without writing. */
  lemma DefectsFail()
    ensures Ingest(EmptyStore, Original.(text := Missing), false, FixedParser) ==
      Step(EmptyStore, Failed(MissingKey(KeyText)))
    ensures Ingest(EmptyStore, Original.(user := Present(Some(Author.(verified := Missing)))), false, FixedParser) ==
      Step(EmptyStore, Failed(MissingKey(KeyUserVerified)))
    ensures Ingest(EmptyStore, Original, false, NoParser) ==
      Step(EmptyStore, Failed(BadDate(KeyCreatedAt, Unparsable)))
  {
  }

  /** A `null` creation date fails like an unparsable one, for the tweet
      and for its author. */
  lemma NullDatesFail()
    ensures Ingest(EmptyStore, Original.(createdAt := Present(None)), false, FixedParser) ==
      Step(EmptyStore, Failed(BadDate(KeyCreatedAt, Unparsable)))
    ensures Ingest(EmptyStore, Original.(user := Present(Some(Author.(createdAt := Present(None))))), false, FixedParser) ==
      Step(EmptyStore, Failed(BadDate(KeyUserCreatedAt, Unparsable)))
  {
  }

  /** A retweet whose `retweeted_status` object has no `id`. */
  const IdlessRetweet := Original.(id := Present(102), retweetedStatus := Some(RawRetweeted(Missing)))

  /** Kept by `save_rts`, the id-less retweet reports a `null` author, a
      missing `text` and a bad `created_at` before its missing id; filtered,
      it reports the missing id first, even with a `null` author. */
  lemma IdlessRetweetErrors()
    ensures Ingest(EmptyStore, IdlessRetweet.(user := Present(None)), true, FixedParser) ==
      Step(EmptyStore, Failed(UserNotObject))
    ensures Ingest(EmptyStore, IdlessRetweet.(text := Missing), true, FixedParser) ==
      Step(EmptyStore, Failed(MissingKey(KeyText)))
    ensures Ingest(EmptyStore, IdlessRetweet, true, NoParser) ==
      Step(EmptyStore, Failed(BadDate(KeyCreatedAt, Unparsable)))
    ensures Ingest(EmptyStore, IdlessRetweet, true, FixedParser) ==
      Step(EmptyStore, Failed(MissingKey(KeyRetweetedId)))
    ensures Ingest(EmptyStore, IdlessRetweet.(user := Present(None)), false, FixedParser) ==
      Step(EmptyStore, Failed(MissingKey(KeyRetweetedId)))
  {
  }

  /** A retweet of status `0` is stored even with `save_rts` false. */
  lemma RetweetOfZeroIsKept()
    ensures
      var r := Ingest(EmptyStore, Retweet.(retweetedStatus := Some(RawRetweeted(Present(Some(0))))), false, FixedParser);
      r.outcome.Saved? && IsRetweet(r.outcome.tweet)
  {
  }
}
