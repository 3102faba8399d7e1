/** The parsed JSON status object handed to the ingestion function.

    Two kinds of field are distinguished by how the ingestion code reads them:
    a key read by subscripting (`raw["text"]`) raises `KeyError` when it is
    absent, so it is a `Slot`; a key read with `.get` yields `None` both when it
    is absent and when it holds JSON `null`, so it is an `Option`. */
module Raw {
  import opened Wrappers

  /** A key that must be present: `Missing` is the `KeyError` case. */
  datatype Slot<+T> = Missing | Present(value: T)

  /** The nested `entities` metadata, carried unchanged in its serialized form. */
  datatype Json = Json(serialized: string)

  /** The nested `retweeted_status` object; only its `id` is read, and that
      id may itself be JSON `null`. */
  datatype RawRetweeted = RawRetweeted(id: Slot<Option<int>>)

  /** The nested `user` object. */
  datatype RawUser = RawUser(
    id: Slot<int>,
    name: Slot<string>,
    screenName: Slot<string>,
    location: Slot<string>,
    url: Slot<Option<string>>,
    description: Slot<string>,
    protected: Slot<Option<bool>>,
    verified: Slot<Option<bool>>,
    followersCount: Option<int>,
    friendsCount: Option<int>,
    listedCount: Option<int>,
    favouritesCount: Option<int>,
    statusesCount: Option<int>,
    createdAt: Slot<Option<string>>,
    profileBannerUrl: Option<string>,
    profileImageUrlHttps: Option<string>,
    defaultProfile: Option<bool>,
    defaultProfileImage: Option<bool>,
    entities: Option<Json>)

  /** The top-level status object. `user` is `Present(None)` when the key
      holds JSON `null`; `retweetedStatus` is `None` when the key is absent
      or `null`. Both `created_at` keys may hold JSON `null`. */
  datatype RawStatus = RawStatus(
    user: Slot<Option<RawUser>>,
    id: Slot<int>,
    text: Slot<string>,
    truncated: Slot<bool>,
    createdAt: Slot<Option<string>>,
    filterLevel: Option<string>,
    replyCount: Option<int>,
    retweetCount: Option<int>,
    favoriteCount: Option<int>,
    inReplyToStatusId: Option<int>,
    retweetedStatus: Option<RawRetweeted>,
    entities: Option<Json>)
}
