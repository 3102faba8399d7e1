/** The read helpers on `Tweet`: `is_retweet`, `user_name`, the half-open
    creation-time range query, and the earliest / latest creation time. */
module Queries {
  import opened Wrappers
  import opened DateTimes
  import opened Raw
  import opened Models
  import opened Ingestion

  /** `is_retweet`: the tweet records the id of a retweeted status. The id
      is compared with `None`, so a retweet of status `0` counts. */
  predicate IsRetweet(t: TweetRec)
    ensures t.retweetedStatusId == Some(0) ==> IsRetweet(t)
    ensures t.retweetedStatusId.None? ==> !IsRetweet(t)
  {
    t.retweetedStatusId.Some?
  }

  /** `user_name`: the name of the author row with the tweet's `user_id`,
      or `None` when no such row exists. */
  function UserName(s: Store, t: TweetRec): (r: Option<string>)
    ensures r.Some? <==> t.userId in s.users
    ensures r.Some? ==> r.value == s.users[t.userId].name
  {
    if t.userId in s.users then Some(s.users[t.userId].name) else None
  }

  /** A non-empty set has a member to pick. */
  lemma HasElement(xs: set<int>)
    requires xs != {}
    ensures exists x :: x in xs
  {
    if forall x :: x !in xs {
      assert false;
    }
  }

  /** `created_at >= start and created_at < end`. */
  predicate InRange(d: DateTime, start: DateTime, end: DateTime) {
    NotAfter(start, d) && Before(d, end)
  }

  /** `get_created_in_range(start, end)`: the rows whose creation time lies
      in the half-open interval, scanned one row at a time. */
  method GetCreatedInRange(s: Store, start: DateTime, end: DateTime) returns (r: map<int, TweetRec>)
    ensures forall k :: k in r <==> k in s.tweets && InRange(s.tweets[k].createdAt, start, end)
    ensures forall k :: k in r ==> r[k] == s.tweets[k]
  {
    r := map[];
    var todo := s.tweets.Keys;
    while todo != {}
      invariant todo <= s.tweets.Keys
      invariant forall k :: k in r <==>
        k in s.tweets && k !in todo && InRange(s.tweets[k].createdAt, start, end)
      invariant forall k :: k in r ==> r[k] == s.tweets[k]
      decreases todo
    {
      HasElement(todo);
      var k :| k in todo;
      if InRange(s.tweets[k].createdAt, start, end) {
        r := r[k := s.tweets[k]];
      }
      todo := todo - {k};
    }
  }

  /** The interval includes its lower bound and excludes its upper bound. */
  lemma RangeIsHalfOpen(start: DateTime, end: DateTime)
    ensures !InRange(end, start, end)
    ensures Before(start, end) ==> InRange(start, start, end)
  {
    BeforeIrreflexive(end);
  }

  /** Adjacent intervals split a longer one: every time in `[a, c)` lies in
      exactly one of `[a, b)` and `[b, c)`. */
  lemma RangeSplits(d: DateTime, a: DateTime, b: DateTime, c: DateTime)
    requires NotAfter(a, b) && NotAfter(b, c)
    ensures InRange(d, a, c) <==> InRange(d, a, b) || InRange(d, b, c)
    ensures !(InRange(d, a, b) && InRange(d, b, c))
  {
    NotAfterIffNotBefore(b, d);
    if InRange(d, a, b) {
      NotAfterIffNotBefore(d, b);
      assert Before(d, c) by {
        if b != c { BeforeTransitive(d, b, c); }
      }
    }
    if InRange(d, b, c) {
      NotAfterTransitive(a, b, d);
    }
    if InRange(d, a, c) && !InRange(d, a, b) {
      Trichotomy(b, d);
    }
  }

  /** `d` is the minimum of the creation times in `m`: attained and a lower bound. */
  predicate IsEarliest(m: map<int, TweetRec>, d: DateTime) {
    && (exists k :: k in m && m[k].createdAt == d)
    && (forall k :: k in m ==> NotAfter(d, m[k].createdAt))
  }

  /** `d` is the maximum of the creation times in `m`: attained and an upper bound. */
  predicate IsLatest(m: map<int, TweetRec>, d: DateTime) {
    && (exists k :: k in m && m[k].createdAt == d)
    && (forall k :: k in m ==> NotAfter(m[k].createdAt, d))
  }

  /** `get_earliest_created_at`: `None` on an empty table, else the minimum. */
  method GetEarliestCreatedAt(s: Store) returns (r: Option<DateTime>)
    ensures r.None? <==> |s.tweets| == 0
    ensures r.Some? ==> IsEarliest(s.tweets, r.value)
  {
    r := None;
    var todo := s.tweets.Keys;
    while todo != {}
      invariant todo <= s.tweets.Keys
      invariant r.None? <==> todo == s.tweets.Keys
      invariant r.Some? ==> exists k :: k in s.tweets && s.tweets[k].createdAt == r.value
      invariant r.Some? ==>
        forall k :: k in s.tweets && k !in todo ==> NotAfter(r.value, s.tweets[k].createdAt)
      decreases todo
    {
      HasElement(todo);
      var k :| k in todo;
      var d := s.tweets[k].createdAt;
      if r.None? || Before(d, r.value) {
        if r.Some? {
          forall j | j in s.tweets && j !in todo
            ensures NotAfter(d, s.tweets[j].createdAt)
          {
            NotAfterTransitive(d, r.value, s.tweets[j].createdAt);
          }
        }
        r := Some(d);
      } else {
        NotAfterIffNotBefore(r.value, d);
      }
      todo := todo - {k};
    }
    if r.None? {
      assert s.tweets.Keys == {};
    }
  }

  /** `get_latest_created_at`: `None` on an empty table, else the maximum. */
  method GetLatestCreatedAt(s: Store) returns (r: Option<DateTime>)
    ensures r.None? <==> |s.tweets| == 0
    ensures r.Some? ==> IsLatest(s.tweets, r.value)
  {
    r := None;
    var todo := s.tweets.Keys;
    while todo != {}
      invariant todo <= s.tweets.Keys
      invariant r.None? <==> todo == s.tweets.Keys
      invariant r.Some? ==> exists k :: k in s.tweets && s.tweets[k].createdAt == r.value
      invariant r.Some? ==>
        forall k :: k in s.tweets && k !in todo ==> NotAfter(s.tweets[k].createdAt, r.value)
      decreases todo
    {
      HasElement(todo);
      var k :| k in todo;
      var d := s.tweets[k].createdAt;
      if r.None? || Before(r.value, d) {
        if r.Some? {
          forall j | j in s.tweets && j !in todo
            ensures NotAfter(s.tweets[j].createdAt, d)
          {
            NotAfterTransitive(s.tweets[j].createdAt, r.value, d);
          }
        }
        r := Some(d);
      } else {
        NotAfterIffNotBefore(d, r.value);
      }
      todo := todo - {k};
    }
    if r.None? {
      assert s.tweets.Keys == {};
    }
  }

  /** The minimum is unique, and so is the maximum. */
  lemma ExtremesUnique(m: map<int, TweetRec>, a: DateTime, b: DateTime)
    ensures IsEarliest(m, a) && IsEarliest(m, b) ==> a == b
    ensures IsLatest(m, a) && IsLatest(m, b) ==> a == b
  {
    if IsEarliest(m, a) && IsEarliest(m, b) {
      var ka :| ka in m && m[ka].createdAt == a;
      var kb :| kb in m && m[kb].createdAt == b;
      NotAfterAntisymmetric(a, b);
    }
    if IsLatest(m, a) && IsLatest(m, b) {
      var ka :| ka in m && m[ka].createdAt == a;
      var kb :| kb in m && m[kb].createdAt == b;
      NotAfterAntisymmetric(a, b);
    }
  }

  /** Every row lies between the earliest and the latest creation time, and
      the earliest is not after the latest. */
  lemma ExtremesBracket(m: map<int, TweetRec>, lo: DateTime, hi: DateTime)
    requires IsEarliest(m, lo) && IsLatest(m, hi)
    ensures NotAfter(lo, hi)
    ensures forall k :: k in m ==> NotAfter(lo, m[k].createdAt) && NotAfter(m[k].createdAt, hi)
  {
    var k :| k in m && m[k].createdAt == lo;
    assert NotAfter(m[k].createdAt, hi);
  }

  /** After a save, the returned tweet names its author: `user_name` finds
      the author row written by the same call. */
  lemma SavedTweetHasUserName(s: Store, raw: RawStatus, saveRts: bool, parsedate: Parser)
    ensures
      var r := Ingest(s, raw, saveRts, parsedate);
      r.outcome.Saved? ==>
      UserName(r.store, r.outcome.tweet) == Some(UserOf(raw).name.value)
  {
  }

  /** A saved tweet is a retweet exactly when the input has a
      `retweeted_status` object whose id is not `null`. */
  lemma SavedIsRetweetIff(s: Store, raw: RawStatus, saveRts: bool, parsedate: Parser)
    ensures
      var o := Ingest(s, raw, saveRts, parsedate).outcome;
      o.Saved? ==>
      (IsRetweet(o.tweet) <==>
        raw.retweetedStatus.Some? && raw.retweetedStatus.value.id.value.Some?)
  {
    RetweetedIdDerivation(s, raw, saveRts, parsedate);
  }

  /** With `save_rts` false, no retweet is stored, except one whose
      retweeted id is `0`: the skip rule checks the id for truthiness while
      `is_retweet` compares it with `None`. */
  lemma StoredRetweetsHaveIdZero(s: Store, raw: RawStatus, parsedate: Parser)
    ensures
      var o := Ingest(s, raw, false, parsedate).outcome;
      o.Saved? && IsRetweet(o.tweet) ==> o.tweet.retweetedStatusId == Some(0)
  {
  }
}
