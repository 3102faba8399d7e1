/** The two persisted entities, `Tweet` and `User`, and the store that holds
    them: one map per table, keyed by the unique external id (`tweet_id`,
    `user_id`). The internal auto-increment primary key and the clock-driven
    `updated_at` column are not part of the model. */
module Models {
  import opened Wrappers
  import opened DateTimes
  import opened Raw

  /** The mapped fields of a `Tweet` row. */
  datatype TweetRec = TweetRec(
    tweetId: int,
    text: string,
    truncated: bool,
    userId: int,
    createdAt: DateTime,
    filterLevel: Option<string>,
    replyCount: Option<int>,
    favoriteCount: Option<int>,
    retweetCount: Option<int>,
    inReplyToStatusId: Option<int>,
    retweetedStatusId: Option<int>,
    entities: Option<Json>)

  /** The mapped fields of a `User` row. */
  datatype UserRec = UserRec(
    userId: int,
    name: string,
    screenName: string,
    location: string,
    url: Option<string>,
    description: string,
    protected: Option<bool>,
    verified: Option<bool>,
    followersCount: Option<int>,
    friendsCount: Option<int>,
    listedCount: Option<int>,
    favouritesCount: Option<int>,
    statusesCount: Option<int>,
    createdAt: DateTime,
    profileBannerUrl: Option<string>,
    profileImageUrlHttps: Option<string>,
    defaultProfile: Option<bool>,
    defaultProfileImage: Option<bool>,
    entities: Option<Json>)

  /** Both tables, each keyed by its unique external id. */
  datatype Store = Store(tweets: map<int, TweetRec>, users: map<int, UserRec>)

  const EmptyStore := Store(map[], map[])

  /** An engagement count is either unknown or a known non-negative number. */
  predicate CountOk(c: Option<int>) {
    c.None? || c.value >= 0
  }

  predicate TweetCountsOk(t: TweetRec) {
    CountOk(t.replyCount) && CountOk(t.favoriteCount) && CountOk(t.retweetCount)
  }

  predicate UserCountsOk(u: UserRec) {
    && CountOk(u.followersCount) && CountOk(u.friendsCount) && CountOk(u.listedCount)
    && CountOk(u.favouritesCount) && CountOk(u.statusesCount)
  }

  /** What the ingestion function keeps true of the store: every row sits
      under its own external id, and no stored count is negative. */
  predicate Consistent(s: Store) {
    && (forall k :: k in s.tweets ==> s.tweets[k].tweetId == k && TweetCountsOk(s.tweets[k]))
    && (forall k :: k in s.users ==> s.users[k].userId == k && UserCountsOk(s.users[k]))
  }

  /** `get_or_create` by external id followed, when the row already existed,
      by overwriting every mapped field and saving: either way the row under
      `key` afterwards is exactly `rec` (a full replace, never a merge). */
  function Upsert<R>(m: map<int, R>, key: int, rec: R): (r: map<int, R>)
    ensures r.Keys == m.Keys + {key}
    ensures r[key] == rec
    ensures forall k :: k in m && k != key ==> r[k] == m[k]
    ensures |r| == if key in m then |m| else |m| + 1
  {
    m[key := rec]
  }

  /** Upserting the same row twice leaves what upserting it once does. */
  lemma UpsertIdempotent<R>(m: map<int, R>, key: int, rec: R)
    ensures Upsert(Upsert(m, key, rec), key, rec) == Upsert(m, key, rec)
  {
  }

  /** Upserts under different keys do not interfere. */
  lemma UpsertCommutes<R>(m: map<int, R>, k1: int, r1: R, k2: int, r2: R)
    requires k1 != k2
    ensures Upsert(Upsert(m, k1, r1), k2, r2) == Upsert(Upsert(m, k2, r2), k1, r1)
  {
  }
}
