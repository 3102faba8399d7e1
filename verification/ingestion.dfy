/** `create_or_update_from_json`: turn one parsed status object into a tweet
    row and a user row, upserted by external id.

    The function reads the input in a fixed order, and that order decides
    which error a defective input reports:
      1. `raw["user"]`;
      2. only when `save_rts` is false: the id of `retweeted_status`, when that
         object is present, and then the retweet skip rule (with `save_rts`
         true the `and` short-circuits and neither is evaluated here);
      3. `raw_user.get(...)` for the user counts (fails if `user` is `null`);
      4. the tweet snapshot: `id`, `text`, `truncated`, `user.id`, `created_at`
         (key, then date parse), then the id of `retweeted_status` when that
         object is present, and the optional fields;
      5. the user snapshot: `id`, `name`, `screen_name`, `location`, `url`,
         `description`, `protected`, `verified`, `created_at` (key, then parse),
         then the optional fields;
      6. the two upserts.
    Every read that can fail happens before the first write, so a failure
    leaves both tables as they were. */
module Ingestion {
  import opened Wrappers
  import opened DateTimes
  import opened Raw
  import opened Models

  /** The keys whose absence (or, for dates, unparsability) aborts ingestion. */
  datatype Path =
    | KeyUser
    | KeyRetweetedId
    | KeyId
    | KeyText
    | KeyTruncated
    | KeyCreatedAt
    | KeyUserId
    | KeyUserName
    | KeyUserScreenName
    | KeyUserLocation
    | KeyUserUrl
    | KeyUserDescription
    | KeyUserProtected
    | KeyUserVerified
    | KeyUserCreatedAt

  /** What the ingestion function raises: `KeyError` for a missing key,
      `AttributeError` when `user` is `null`, and the date parse failures. */
  datatype Error =
    | MissingKey(key: Path)
    | UserNotObject
    | BadDate(key: Path, failure: DateFailure)

  /** `None` returned for a skipped retweet, or the pair of saved rows. */
  datatype Outcome = Failed(error: Error) | Skipped | Saved(tweet: TweetRec, user: UserRec)

  /** The store after the call, together with what the call returned. */
  datatype Step = Step(store: Store, outcome: Outcome)

  /** The `user` key holds an object (not JSON `null`). */
  predicate HasUserObject(raw: RawStatus) {
    raw.user.Present? && raw.user.value.Some?
  }

  function UserOf(raw: RawStatus): RawUser
    requires HasUserObject(raw)
  {
    raw.user.value.value
  }

  /** Whether subscripting `p` would raise `KeyError` on this input. The
      keys of the user object are only reachable when `user` is an object. */
  predicate IsMissing(raw: RawStatus, p: Path) {
    match p
    case KeyUser => raw.user.Missing?
    case KeyRetweetedId => raw.retweetedStatus.Some? && raw.retweetedStatus.value.id.Missing?
    case KeyId => raw.id.Missing?
    case KeyText => raw.text.Missing?
    case KeyTruncated => raw.truncated.Missing?
    case KeyCreatedAt => raw.createdAt.Missing?
    case KeyUserId => HasUserObject(raw) && UserOf(raw).id.Missing?
    case KeyUserName => HasUserObject(raw) && UserOf(raw).name.Missing?
    case KeyUserScreenName => HasUserObject(raw) && UserOf(raw).screenName.Missing?
    case KeyUserLocation => HasUserObject(raw) && UserOf(raw).location.Missing?
    case KeyUserUrl => HasUserObject(raw) && UserOf(raw).url.Missing?
    case KeyUserDescription => HasUserObject(raw) && UserOf(raw).description.Missing?
    case KeyUserProtected => HasUserObject(raw) && UserOf(raw).protected.Missing?
    case KeyUserVerified => HasUserObject(raw) && UserOf(raw).verified.Missing?
    case KeyUserCreatedAt => HasUserObject(raw) && UserOf(raw).createdAt.Missing?
  }

  /** Whether the date under `p` is present but fails to parse with `f`
      (a JSON `null` date fails as `Unparsable`). */
  predicate DateFails(raw: RawStatus, parsedate: Parser, p: Path, f: DateFailure) {
    || (p == KeyCreatedAt && raw.createdAt.Present?
        && ParseDatetime(parsedate, raw.createdAt.value) == Failure(f))
    || (p == KeyUserCreatedAt && HasUserObject(raw) && UserOf(raw).createdAt.Present?
        && ParseDatetime(parsedate, UserOf(raw).createdAt.value) == Failure(f))
  }

  /** The reported error names a real defect of the input. */
  predicate Describes(raw: RawStatus, parsedate: Parser, e: Error) {
    match e
    case MissingKey(p) => IsMissing(raw, p)
    case UserNotObject => raw.user == Present(None)
    case BadDate(p, f) => DateFails(raw, parsedate, p, f)
  }

  /** An input the function can save: `user` is an object, no required key
      is missing and both creation dates parse. */
  predicate Complete(raw: RawStatus, parsedate: Parser) {
    && HasUserObject(raw)
    && (forall p: Path :: !IsMissing(raw, p))
    && raw.createdAt.Present? && ParseDatetime(parsedate, raw.createdAt.value).Success?
    && UserOf(raw).createdAt.Present?
    && ParseDatetime(parsedate, UserOf(raw).createdAt.value).Success?
  }

  /** A negative count means the upstream data is corrupt: it becomes
      unknown. Unknown stays unknown and a non-negative count is kept. */
  function Sanitize(count: Option<int>): (r: Option<int>)
    ensures r.None? <==> count.None? || count.value < 0
    ensures r.Some? ==> r == count && r.value >= 0
    ensures CountOk(r)
  {
    if count.Some? && count.value < 0 then None else count
  }

  /** Sanitizing is a projection: a second pass changes nothing. */
  lemma SanitizeIdempotent(count: Option<int>)
    ensures Sanitize(Sanitize(count)) == Sanitize(count)
  {
  }

  /** `retweeted_status["id"]`: `None` when there is no `retweeted_status`
      object (it is replaced by `{"id": None}`), otherwise that object's
      `id`, which must be present. */
  function RetweetedStatusId(raw: RawStatus): (r: Result<Option<int>, Error>)
    ensures raw.retweetedStatus.None? ==> r == Success(None)
    ensures r.Failure? <==> IsMissing(raw, KeyRetweetedId)
    ensures r.Failure? ==> r.error == MissingKey(KeyRetweetedId)
    ensures r.Success? && raw.retweetedStatus.Some? ==> r.value == raw.retweetedStatus.value.id.value
  {
    match raw.retweetedStatus
    case None => Success(None)
    case Some(rt) =>
      match rt.id
      case Missing => Failure(MissingKey(KeyRetweetedId))
      case Present(id) => Success(id)
  }

  /** The skip rule: retweets are not persisted unless asked for. The id is
      checked for truthiness, so both `None` and `0` count as "not a retweet". */
  predicate SkipsRetweet(saveRts: bool, retweetedId: Option<int>)
    ensures saveRts ==> !SkipsRetweet(saveRts, retweetedId)
    ensures retweetedId.None? || retweetedId == Some(0) ==> !SkipsRetweet(saveRts, retweetedId)
    ensures !saveRts && retweetedId.Some? && retweetedId != Some(0) ==> SkipsRetweet(saveRts, retweetedId)
  {
    !saveRts && retweetedId.Some? && retweetedId.value != 0
  }

  /** The call gets past the skip rule: with `save_rts` true the rule is not
      evaluated, otherwise the retweeted id is readable and not truthy. */
  predicate PassesSkipRule(raw: RawStatus, saveRts: bool) {
    saveRts || (RetweetedStatusId(raw).Success? && !SkipsRetweet(saveRts, RetweetedStatusId(raw).value))
  }

  /** Subscripting a required key. */
  function Read<T>(slot: Slot<T>, p: Path): (r: Result<T, Error>)
    ensures r.Success? <==> slot.Present?
    ensures r.Success? ==> r.value == slot.value
    ensures r.Failure? ==> r.error == MissingKey(p)
  {
    match slot
    case Missing => Failure(MissingKey(p))
    case Present(v) => Success(v)
  }

  /** `parse_datetime(raw[key])`: the key is read first, then parsed. */
  function ReadDate(slot: Slot<Option<string>>, p: Path, parsedate: Parser): (r: Result<DateTime, Error>)
    ensures r.Success? <==> slot.Present? && ParseDatetime(parsedate, slot.value).Success?
    ensures r.Success? ==> r.value == ParseDatetime(parsedate, slot.value).value
    ensures r.Failure? && slot.Missing? ==> r.error == MissingKey(p)
    ensures r.Failure? && slot.Present? ==>
      r.error == BadDate(p, ParseDatetime(parsedate, slot.value).error)
    ensures slot == Present(None) ==> r == Failure(BadDate(p, Unparsable))
  {
    var text :- Read(slot, p);
    match ParseDatetime(parsedate, text)
    case Success(d) => Success(d)
    case Failure(f) => Failure(BadDate(p, f))
  }

  /** The four keys the tweet field set subscripts before `created_at`. */
  predicate TweetKeysPresent(raw: RawStatus)
    requires HasUserObject(raw)
  {
    raw.id.Present? && raw.text.Present? && raw.truncated.Present? && UserOf(raw).id.Present?
  }

  /** The `tweet_defaults` field set, built in the order of its keyword
      arguments; the retweeted id is read after `created_at` is parsed. */
  function TweetSnapshot(raw: RawStatus, parsedate: Parser): (r: Result<TweetRec, Error>)
    requires HasUserObject(raw)
    ensures r.Success? <==>
      && TweetKeysPresent(raw)
      && ReadDate(raw.createdAt, KeyCreatedAt, parsedate).Success?
      && !IsMissing(raw, KeyRetweetedId)
    ensures r.Success? ==>
      var t := r.value;
      && t.tweetId == raw.id.value
      && t.text == raw.text.value
      && t.truncated == raw.truncated.value
      && t.userId == UserOf(raw).id.value
      && t.createdAt == ParseDatetime(parsedate, raw.createdAt.value).value
      && t.filterLevel == raw.filterLevel
      && t.replyCount == Sanitize(raw.replyCount)
      && t.favoriteCount == Sanitize(raw.favoriteCount)
      && t.retweetCount == Sanitize(raw.retweetCount)
      && t.inReplyToStatusId == raw.inReplyToStatusId
      && t.retweetedStatusId == RetweetedStatusId(raw).value
      && t.entities == raw.entities
    ensures r.Failure? ==> Describes(raw, parsedate, r.error)
    // The error reported is the first defect in read order.
    ensures raw.id.Missing? ==> r == Failure(MissingKey(KeyId))
    ensures raw.id.Present? && raw.text.Missing? ==> r == Failure(MissingKey(KeyText))
    ensures raw.id.Present? && raw.text.Present? && raw.truncated.Missing? ==>
      r == Failure(MissingKey(KeyTruncated))
    ensures raw.id.Present? && raw.text.Present? && raw.truncated.Present? && UserOf(raw).id.Missing? ==>
      r == Failure(MissingKey(KeyUserId))
    ensures TweetKeysPresent(raw) && ReadDate(raw.createdAt, KeyCreatedAt, parsedate).Failure? ==>
      r == Failure(ReadDate(raw.createdAt, KeyCreatedAt, parsedate).error)
    ensures
      && TweetKeysPresent(raw)
      && ReadDate(raw.createdAt, KeyCreatedAt, parsedate).Success?
      && IsMissing(raw, KeyRetweetedId)
      ==> r == Failure(MissingKey(KeyRetweetedId))
  {
    var tweetId :- Read(raw.id, KeyId);
    var text :- Read(raw.text, KeyText);
    var truncated :- Read(raw.truncated, KeyTruncated);
    var userId :- Read(UserOf(raw).id, KeyUserId);
    var createdAt :- ReadDate(raw.createdAt, KeyCreatedAt, parsedate);
    var retweetedId :- RetweetedStatusId(raw);
    Success(TweetRec(
      tweetId, text, truncated, userId, createdAt, raw.filterLevel,
      Sanitize(raw.replyCount), Sanitize(raw.favoriteCount), Sanitize(raw.retweetCount),
      raw.inReplyToStatusId, retweetedId, raw.entities))
  }

  /** The eight keys the user field set subscripts before `created_at`. */
  predicate UserKeysPresent(raw: RawStatus)
    requires HasUserObject(raw)
  {
    var u := UserOf(raw);
    && u.id.Present? && u.name.Present? && u.screenName.Present? && u.location.Present?
    && u.url.Present? && u.description.Present? && u.protected.Present? && u.verified.Present?
  }

  /** The `user_defaults` field set, built in the order of its keyword arguments. */
  function UserSnapshot(raw: RawStatus, parsedate: Parser): (r: Result<UserRec, Error>)
    requires HasUserObject(raw)
    ensures r.Success? <==>
      UserKeysPresent(raw) && ReadDate(UserOf(raw).createdAt, KeyUserCreatedAt, parsedate).Success?
    ensures r.Success? ==>
      var u := UserOf(raw);
      var rec := r.value;
      && rec.userId == u.id.value
      && rec.name == u.name.value
      && rec.screenName == u.screenName.value
      && rec.location == u.location.value
      && rec.url == u.url.value
      && rec.description == u.description.value
      && rec.protected == u.protected.value
      && rec.verified == u.verified.value
      && rec.followersCount == Sanitize(u.followersCount)
      && rec.friendsCount == Sanitize(u.friendsCount)
      && rec.listedCount == Sanitize(u.listedCount)
      && rec.favouritesCount == Sanitize(u.favouritesCount)
      && rec.statusesCount == Sanitize(u.statusesCount)
      && rec.createdAt == ParseDatetime(parsedate, u.createdAt.value).value
      && rec.profileBannerUrl == u.profileBannerUrl
      && rec.profileImageUrlHttps == u.profileImageUrlHttps
      && rec.defaultProfile == u.defaultProfile
      && rec.defaultProfileImage == u.defaultProfileImage
      && rec.entities == u.entities
    ensures r.Failure? ==> Describes(raw, parsedate, r.error)
    // The error reported is the first defect in read order.
    ensures var u := UserOf(raw);
      u.id.Missing? ==> r == Failure(MissingKey(KeyUserId))
    ensures var u := UserOf(raw);
      u.id.Present? && u.name.Missing? ==> r == Failure(MissingKey(KeyUserName))
    ensures var u := UserOf(raw);
      u.id.Present? && u.name.Present? && u.screenName.Missing? ==>
      r == Failure(MissingKey(KeyUserScreenName))
    ensures var u := UserOf(raw);
      u.id.Present? && u.name.Present? && u.screenName.Present? && u.location.Missing? ==>
      r == Failure(MissingKey(KeyUserLocation))
    ensures var u := UserOf(raw);
      u.id.Present? && u.name.Present? && u.screenName.Present? && u.location.Present?
      && u.url.Missing? ==>
      r == Failure(MissingKey(KeyUserUrl))
    ensures var u := UserOf(raw);
      u.id.Present? && u.name.Present? && u.screenName.Present? && u.location.Present?
      && u.url.Present? && u.description.Missing? ==>
      r == Failure(MissingKey(KeyUserDescription))
    ensures var u := UserOf(raw);
      u.id.Present? && u.name.Present? && u.screenName.Present? && u.location.Present?
      && u.url.Present? && u.description.Present? && u.protected.Missing? ==>
      r == Failure(MissingKey(KeyUserProtected))
    ensures var u := UserOf(raw);
      u.id.Present? && u.name.Present? && u.screenName.Present? && u.location.Present?
      && u.url.Present? && u.description.Present? && u.protected.Present? && u.verified.Missing? ==>
      r == Failure(MissingKey(KeyUserVerified))
    ensures UserKeysPresent(raw) && ReadDate(UserOf(raw).createdAt, KeyUserCreatedAt, parsedate).Failure? ==>
      r == Failure(ReadDate(UserOf(raw).createdAt, KeyUserCreatedAt, parsedate).error)
  {
    var u := UserOf(raw);
    var userId :- Read(u.id, KeyUserId);
    var name :- Read(u.name, KeyUserName);
    var screenName :- Read(u.screenName, KeyUserScreenName);
    var location :- Read(u.location, KeyUserLocation);
    var url :- Read(u.url, KeyUserUrl);
    var description :- Read(u.description, KeyUserDescription);
    var protected :- Read(u.protected, KeyUserProtected);
    var verified :- Read(u.verified, KeyUserVerified);
    var createdAt :- ReadDate(u.createdAt, KeyUserCreatedAt, parsedate);
    Success(UserRec(
      userId, name, screenName, location, url, description, protected, verified,
      Sanitize(u.followersCount), Sanitize(u.friendsCount), Sanitize(u.listedCount),
      Sanitize(u.favouritesCount), Sanitize(u.statusesCount),
      createdAt, u.profileBannerUrl, u.profileImageUrlHttps,
      u.defaultProfile, u.defaultProfileImage, u.entities))
  }

  /** Both snapshots, tweet first, built before anything is written. */
  function Snapshots(raw: RawStatus, parsedate: Parser): (r: Result<(TweetRec, UserRec), Error>)
    requires HasUserObject(raw)
    ensures r.Success? <==>
      TweetSnapshot(raw, parsedate).Success? && UserSnapshot(raw, parsedate).Success?
    ensures r.Success? ==>
      r.value == (TweetSnapshot(raw, parsedate).value, UserSnapshot(raw, parsedate).value)
    ensures r.Failure? ==> Describes(raw, parsedate, r.error)
    ensures TweetSnapshot(raw, parsedate).Failure? ==>
      r == Failure(TweetSnapshot(raw, parsedate).error)
    ensures TweetSnapshot(raw, parsedate).Success? && UserSnapshot(raw, parsedate).Failure? ==>
      r == Failure(UserSnapshot(raw, parsedate).error)
  {
    var t :- TweetSnapshot(raw, parsedate);
    var u :- UserSnapshot(raw, parsedate);
    Success((t, u))
  }

  /** The snapshots can be built exactly when the input is complete. */
  lemma SnapshotsIffComplete(raw: RawStatus, parsedate: Parser)
    requires HasUserObject(raw)
    ensures Snapshots(raw, parsedate).Success? <==> Complete(raw, parsedate)
  {
    if Snapshots(raw, parsedate).Success? {
      forall p: Path
        ensures !IsMissing(raw, p)
      {
      }
    }
    if Complete(raw, parsedate) {
      assert !IsMissing(raw, KeyId) && !IsMissing(raw, KeyText) && !IsMissing(raw, KeyTruncated);
      assert !IsMissing(raw, KeyUserId) && !IsMissing(raw, KeyRetweetedId);
      assert !IsMissing(raw, KeyUserName) && !IsMissing(raw, KeyUserScreenName);
      assert !IsMissing(raw, KeyUserLocation) && !IsMissing(raw, KeyUserUrl);
      assert !IsMissing(raw, KeyUserDescription) && !IsMissing(raw, KeyUserProtected);
      assert !IsMissing(raw, KeyUserVerified);
    }
  }

  /** `create_or_update_from_json(raw, save_rts)` against the store `s`. */
  function Ingest(s: Store, raw: RawStatus, saveRts: bool, parsedate: Parser): (r: Step)
    ensures r.outcome.Skipped? <==>
      raw.user.Present? && RetweetedStatusId(raw).Success?
      && SkipsRetweet(saveRts, RetweetedStatusId(raw).value)
    ensures r.outcome.Saved? <==>
      Complete(raw, parsedate) && !SkipsRetweet(saveRts, RetweetedStatusId(raw).value)
    ensures r.outcome.Failed? ==> Describes(raw, parsedate, r.outcome.error)
    ensures !r.outcome.Saved? ==> r.store == s
    ensures r.outcome.Saved? ==>
      var t := r.outcome.tweet;
      var u := r.outcome.user;
      && t == TweetSnapshot(raw, parsedate).value
      && u == UserSnapshot(raw, parsedate).value
      && t.tweetId == raw.id.value
      && u.userId == UserOf(raw).id.value
      && t.userId == u.userId
      && t.retweetedStatusId == RetweetedStatusId(raw).value
      && r.store.tweets == Upsert(s.tweets, raw.id.value, t)
      && r.store.users == Upsert(s.users, u.userId, u)
    // The error reported is the first defect in read order.
    ensures raw.user.Missing? ==> r.outcome == Failed(MissingKey(KeyUser))
    ensures raw.user.Present? && !saveRts && IsMissing(raw, KeyRetweetedId) ==>
      r.outcome == Failed(MissingKey(KeyRetweetedId))
    ensures raw.user == Present(None) && PassesSkipRule(raw, saveRts) ==>
      r.outcome == Failed(UserNotObject)
    ensures HasUserObject(raw) && PassesSkipRule(raw, saveRts) && Snapshots(raw, parsedate).Failure? ==>
      r.outcome == Failed(Snapshots(raw, parsedate).error)
  {
    match raw.user
    case Missing => Step(s, Failed(MissingKey(KeyUser)))
    case Present(rawUser) =>
      if !saveRts && RetweetedStatusId(raw).Failure? then
        Step(s, Failed(RetweetedStatusId(raw).error))
      else if !saveRts && SkipsRetweet(saveRts, RetweetedStatusId(raw).value) then
        Step(s, Skipped)
      else if rawUser.None? then
        Step(s, Failed(UserNotObject))
      else
        SnapshotsIffComplete(raw, parsedate);
        match Snapshots(raw, parsedate)
        case Failure(e) => Step(s, Failed(e))
        case Success(rows) =>
          var (t, u) := rows;
          Step(Store(Upsert(s.tweets, t.tweetId, t), Upsert(s.users, u.userId, u)), Saved(t, u))
  }

  /** A missing `user` key is reported first, whatever the retweet flag:
      the key is read before the skip rule. */
  lemma MissingUserAlwaysFails(s: Store, raw: RawStatus, saveRts: bool, parsedate: Parser)
    requires raw.user.Missing?
    ensures Ingest(s, raw, saveRts, parsedate) == Step(s, Failed(MissingKey(KeyUser)))
  {
  }

  /** A skipped retweet reads nothing past the skip rule: the remaining
      fields may be missing, and `user` may even be `null`. */
  lemma SkipReadsNoFurther(s: Store, raw: RawStatus, parsedate: Parser)
    requires raw.user.Present?
    requires raw.retweetedStatus.Some? && raw.retweetedStatus.value.id.Present?
    requires raw.retweetedStatus.value.id.value.Some? && raw.retweetedStatus.value.id.value.value != 0
    ensures Ingest(s, raw, false, parsedate) == Step(s, Skipped)
  {
  }

  /** With `save_rts` true, or without a `retweeted_status` object, nothing
      is ever skipped. */
  lemma NeverSkippedWithoutRetweetFilter(s: Store, raw: RawStatus, saveRts: bool, parsedate: Parser)
    requires saveRts || raw.retweetedStatus.None?
    ensures !Ingest(s, raw, saveRts, parsedate).outcome.Skipped?
  {
  }

  /** With `save_rts` false the retweeted id is read before anything else
      past `raw["user"]`: a `retweeted_status` without `id` is reported even
      when `user` is `null` and every other key is missing. */
  lemma FilteredRetweetIdReadFirst(s: Store, raw: RawStatus, parsedate: Parser)
    ensures raw.user.Present? && IsMissing(raw, KeyRetweetedId) ==>
      Ingest(s, raw, false, parsedate) == Step(s, Failed(MissingKey(KeyRetweetedId)))
  {
  }

  /** With `save_rts` true the retweeted id is read last among the tweet's
      required fields: a `null` author, a missing tweet key and a bad
      `created_at` are each reported before a missing retweeted id, which is
      reported only when everything read before it is sound. */
  lemma KeptRetweetIdReadLate(s: Store, raw: RawStatus, parsedate: Parser)
    ensures
      var r := Ingest(s, raw, true, parsedate);
      && (raw.user == Present(None) ==> r == Step(s, Failed(UserNotObject)))
      && (HasUserObject(raw) && TweetSnapshot(raw, parsedate).Failure? ==>
            r == Step(s, Failed(TweetSnapshot(raw, parsedate).error)))
      && (HasUserObject(raw) && raw.id.Present? && raw.text.Missing? ==>
            r == Step(s, Failed(MissingKey(KeyText))))
      && (HasUserObject(raw) && TweetKeysPresent(raw)
          && ReadDate(raw.createdAt, KeyCreatedAt, parsedate).Failure? ==>
            r == Step(s, Failed(ReadDate(raw.createdAt, KeyCreatedAt, parsedate).error)))
      && (HasUserObject(raw) && TweetKeysPresent(raw)
          && ReadDate(raw.createdAt, KeyCreatedAt, parsedate).Success?
          && IsMissing(raw, KeyRetweetedId) ==>
            r == Step(s, Failed(MissingKey(KeyRetweetedId))))
  {
  }

  /** After a save, the tweet table holds the snapshot under `raw["id"]`
      (whether or not a row existed), every other tweet row is untouched,
      and likewise for the user table under `raw["user"]["id"]`. */
  lemma IngestUpserts(s: Store, raw: RawStatus, saveRts: bool, parsedate: Parser)
    ensures
      var r := Ingest(s, raw, saveRts, parsedate);
      r.outcome.Saved? ==>
      && raw.id.Present? && HasUserObject(raw) && UserOf(raw).id.Present?
      && r.store.tweets.Keys == s.tweets.Keys + {raw.id.value}
      && r.store.tweets[raw.id.value] == r.outcome.tweet
      && (forall k :: k in s.tweets && k != raw.id.value ==> r.store.tweets[k] == s.tweets[k])
      && r.store.users.Keys == s.users.Keys + {UserOf(raw).id.value}
      && r.store.users[UserOf(raw).id.value] == r.outcome.user
      && (forall k :: k in s.users && k != UserOf(raw).id.value ==> r.store.users[k] == s.users[k])
  {
  }

  /** A status whose tweet and author are both new adds exactly one row to
      each table; an already-known id adds none. */
  lemma IngestSizes(s: Store, raw: RawStatus, saveRts: bool, parsedate: Parser)
    ensures
      var r := Ingest(s, raw, saveRts, parsedate);
      r.outcome.Saved? ==>
      && |r.store.tweets| == (if raw.id.value in s.tweets then |s.tweets| else |s.tweets| + 1)
      && |r.store.users| == (if UserOf(raw).id.value in s.users then |s.users| else |s.users| + 1)
  {
  }

  /** Every count a save stores is the sanitized input count (so a
      negative or absent count is stored as unknown and any other unchanged),
      and none is negative. */
  lemma StoredCountsSanitized(s: Store, raw: RawStatus, saveRts: bool, parsedate: Parser)
    ensures
      var o := Ingest(s, raw, saveRts, parsedate).outcome;
      o.Saved? ==>
      && TweetCountsOk(o.tweet) && UserCountsOk(o.user)
      && o.tweet.replyCount == Sanitize(raw.replyCount)
      && o.tweet.favoriteCount == Sanitize(raw.favoriteCount)
      && o.tweet.retweetCount == Sanitize(raw.retweetCount)
      && o.user.followersCount == Sanitize(UserOf(raw).followersCount)
      && o.user.friendsCount == Sanitize(UserOf(raw).friendsCount)
      && o.user.listedCount == Sanitize(UserOf(raw).listedCount)
      && o.user.favouritesCount == Sanitize(UserOf(raw).favouritesCount)
      && o.user.statusesCount == Sanitize(UserOf(raw).statusesCount)
  {
  }

  /** The stored `retweeted_status_id` is `None` exactly when there is no
      `retweeted_status` object or its id is `null`; otherwise it is that id. */
  lemma RetweetedIdDerivation(s: Store, raw: RawStatus, saveRts: bool, parsedate: Parser)
    ensures
      var o := Ingest(s, raw, saveRts, parsedate).outcome;
      o.Saved? ==>
      var t := o.tweet;
      && (t.retweetedStatusId.None? <==>
            raw.retweetedStatus.None? || raw.retweetedStatus.value.id.value.None?)
      && (raw.retweetedStatus.Some? ==> t.retweetedStatusId == raw.retweetedStatus.value.id.value)
  {
  }

  /** Ingestion keeps the store consistent: rows stay under their own ids
      and no count is negative. */
  lemma IngestPreservesConsistent(s: Store, raw: RawStatus, saveRts: bool, parsedate: Parser)
    requires Consistent(s)
    ensures Consistent(Ingest(s, raw, saveRts, parsedate).store)
  {
    var r := Ingest(s, raw, saveRts, parsedate);
    if r.outcome.Saved? {
      StoredCountsSanitized(s, raw, saveRts, parsedate);
      var t, u := r.outcome.tweet, r.outcome.user;
      assert r.store == Store(Upsert(s.tweets, t.tweetId, t), Upsert(s.users, u.userId, u));
      forall k | k in r.store.tweets
        ensures r.store.tweets[k].tweetId == k && TweetCountsOk(r.store.tweets[k])
      {
        if k != t.tweetId {
          assert r.store.tweets[k] == s.tweets[k];
        }
      }
      forall k | k in r.store.users
        ensures r.store.users[k].userId == k && UserCountsOk(r.store.users[k])
      {
        if k != u.userId {
          assert r.store.users[k] == s.users[k];
        }
      }
    }
  }

  /** Ingesting the same status a second time returns the same rows and
      leaves the store exactly as the first call left it; no key is added. */
  lemma IngestIdempotent(s: Store, raw: RawStatus, saveRts: bool, parsedate: Parser)
    ensures
      var r1 := Ingest(s, raw, saveRts, parsedate);
      var r2 := Ingest(r1.store, raw, saveRts, parsedate);
      && r2 == r1
      && r2.store.tweets.Keys == r1.store.tweets.Keys
      && r2.store.users.Keys == r1.store.users.Keys
  {
    var r1 := Ingest(s, raw, saveRts, parsedate);
    if r1.outcome.Saved? {
      var t, u := r1.outcome.tweet, r1.outcome.user;
      UpsertIdempotent(s.tweets, t.tweetId, t);
      UpsertIdempotent(s.users, u.userId, u);
    }
  }

  /** Two statuses about different tweets by different authors can be
      ingested in either order with the same final store. */
  lemma IngestCommutes(s: Store, a: RawStatus, b: RawStatus, saveRts: bool, parsedate: Parser)
    ensures
      && Ingest(s, a, saveRts, parsedate).outcome.Saved?
      && Ingest(s, b, saveRts, parsedate).outcome.Saved?
      && a.id.value != b.id.value
      && UserOf(a).id.value != UserOf(b).id.value
      ==>
      Ingest(Ingest(s, a, saveRts, parsedate).store, b, saveRts, parsedate).store ==
      Ingest(Ingest(s, b, saveRts, parsedate).store, a, saveRts, parsedate).store
  {
    var ra := Ingest(s, a, saveRts, parsedate);
    var rb := Ingest(s, b, saveRts, parsedate);
    if !ra.outcome.Saved? || !rb.outcome.Saved? || a.id.value == b.id.value
      || UserOf(a).id.value == UserOf(b).id.value
    {
      return;
    }
    UpsertCommutes(s.tweets, a.id.value, ra.outcome.tweet, b.id.value, rb.outcome.tweet);
    UpsertCommutes(s.users, UserOf(a).id.value, ra.outcome.user, UserOf(b).id.value, rb.outcome.user);
  }
}
