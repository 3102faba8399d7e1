# django-tweet ingestion, modelled in Dafny

The repository stores tweets streamed from Twitter in two Django tables,
`Tweet` and `User`. Its one piece of logic is `create_or_update_from_json`,
which takes one parsed status object and the `save_rts` flag and then:

- works out the retweeted-status id;
- skips retweets unless asked to keep them;
- turns negative engagement counts into "unknown";
- builds the full field set of the tweet row and of the author row;
- upserts each row by its external id (`tweet_id`, `user_id`).

A handful of read helpers on `Tweet` sit around it: `is_retweet`,
`user_name`, `get_created_in_range` and the earliest / latest creation time.

The model is functional:

- The store is a pair of maps, `tweet_id -> TweetRec` and `user_id -> UserRec` (`Models.Store`).
- The parsed JSON is a record (`Raw.RawStatus`). A key that the code subscripts (`raw["text"]`) is a `Slot`, `Missing` or `Present`. A key that the code reads with `.get` is an `Option`, because there absent and `null` look the same.
- `Ingestion.Ingest` is a pure function. It returns the new store together with the outcome: `Failed(error)`, `Skipped`, or `Saved(tweet, user)`.
- The date parser (`email.utils.parsedate`) is a parameter of type `string -> Option<TimeTuple>`. `DateTimes.ParseDatetime` keeps the first six fields of its nine-field tuple. It then applies the range checks of Python's `datetime` constructor: years 1 to 9999, month, days in the month with the Gregorian leap rule, hour, minute and second.

Modules: `Wrappers` (Option / Result), `DateTimes`, `Raw`, `Models`,
`Ingestion`, `Queries`, `Scenarios` (concrete examples such as "ingest,
edit, re-ingest").

Behaviour of the code worth knowing, all of it modelled:

- **The skip rule checks truthiness.** With `save_rts` false, a status is dropped when `retweeted_status["id"]` is truthy. So a retweet of status `0` is stored, and `is_retweet` (a comparison with `None`) is true for it (`Queries.StoredRetweetsHaveIdZero`, `Scenarios.RetweetOfZeroIsKept`).
- **A failing input writes nothing.** Every read that can fail (the required keys and both date parses) happens before the first `get_or_create`. So a missing key or a bad date leaves both tables unchanged (`Ingestion.Ingest`).
- **Errors come in read order, and the order depends on `save_rts`.** A missing `user` key always fails first. With `save_rts` false, `retweeted_status["id"]` is read next, in the skip test. So a `retweeted_status` object without an `id` fails there, even when `user` is `null` (`Ingestion.FilteredRetweetIdReadFirst`). A skipped retweet whose `user` is `null` does not fail, because `raw_user.get` is first called after the skip rule (`Scenarios.NullAuthorRetweet`).
- **With `save_rts` true the `and` short-circuits.** The retweeted id is then first read in `tweet_defaults`, after `created_at` is parsed. A `null` author, a missing tweet key or a bad `created_at` is therefore reported before a missing retweeted id (`Ingestion.KeptRetweetIdReadLate`, `Scenarios.IdlessRetweetErrors`).
- **A `null` creation date fails like an unparsable one.** `parsedate(None)` returns `None`, and subscripting it raises `TypeError` (`Scenarios.NullDatesFail`).

## Model

| member | source | states |
|---|---|---|
| `DateTimes.DaysInMonth` | tweet/models.py:18 | month lengths the `datetime` constructor accepts: 28 to 31; 28 exactly for February in a common year, 29 exactly for February in a leap year, 30 exactly for April, June, September and November |
| `DateTimes.IsValid` | tweet/models.py:18 | the components the `datetime` constructor accepts: a day is at most 31, at most 29 in February, and 29 February only in a leap year |
| `DateTimes.ParseDatetime` | tweet/models.py:16-20 | a `null` or unparsable date gives `Unparsable`; out-of-range components give `OutOfRange`; on success the result is a valid date-time whose six fields are the first six of the parser's tuple |
| `DateTimes.ParseIgnoresTrailingFields` | tweet/models.py:18 | the `[:6]` slice discards weekday, day of year and DST flag: tuples equal on the first six fields give the same result |
| `DateTimes.Before` | tweet/models.py:124 | the strict order on creation times: nothing is before itself, the year dominates (an earlier year is always before, a later one never) |
| `DateTimes.BeforeIrreflexive` | tweet/models.py:124 | no creation time is strictly before itself |
| `DateTimes.BeforeTransitive` | tweet/models.py:124 | the strict date-time order is transitive |
| `DateTimes.Trichotomy` | tweet/models.py:124 | two date-times are ordered one way, the other, or are equal, and exactly one of these holds |
| `DateTimes.NotAfterTransitive` | tweet/models.py:124 | `<=` on date-times is transitive |
| `DateTimes.NotAfterAntisymmetric` | tweet/models.py:131-139 | `<=` both ways means equal, so a minimum or maximum is well defined |
| `DateTimes.NotAfterIffNotBefore` | tweet/models.py:124 | `a <= b` exactly when not `b < a` (the order is total) |
| `Models.Upsert` | tweet/models.py:231-247 | get-or-create-then-overwrite: the key set gains the key, the row under it is exactly the new snapshot (full replace), other rows are unchanged, and the size grows by one only for a new key |
| `Models.UpsertIdempotent` | tweet/models.py:232-238 | upserting the same row twice equals upserting it once |
| `Models.UpsertCommutes` | tweet/models.py:232-247 | upserts under different keys commute |
| `Ingestion.Sanitize` | tweet/models.py:160-180 | a count is unknown afterwards exactly when it was unknown or negative; otherwise it is unchanged and non-negative |
| `Ingestion.SanitizeIdempotent` | tweet/models.py:166-168 | sanitizing an already sanitized count changes nothing |
| `Ingestion.RetweetedStatusId` | tweet/models.py:152-154 | with no `retweeted_status` object the id is `None`; an object without `id` is a `KeyError`; otherwise the id is that object's `id` |
| `Ingestion.SkipsRetweet` | tweet/models.py:157 | the skip test: never with `save_rts` true; never for a `None` or `0` id; always for any other id when `save_rts` is false |
| `Ingestion.Read` | tweet/models.py:183-213 | subscripting a key yields its value when present and `KeyError` naming the key when absent |
| `Ingestion.ReadDate` | tweet/models.py:190 | reading a date key: `KeyError` when absent, the parse failure tagged with the key when `null` or unparsable, else the parsed date-time |
| `Ingestion.TweetSnapshot` | tweet/models.py:182-202 | the tweet field set exists exactly when `id`, `text`, `truncated`, `user.id` and a parsable `created_at` are present and a `retweeted_status` object has an `id`; each field is copied from the input, the three counts are sanitized, `user_id` is the author's id, `retweeted_status_id` is the retweeted id; the error is the first defect in keyword-argument order, with the retweeted id read after `created_at` |
| `Ingestion.UserSnapshot` | tweet/models.py:204-229 | the author field set exists exactly when the eight required user keys are present and `created_at` parses; each field is copied, the five counts are sanitized; the error is the first defect in keyword-argument order |
| `Ingestion.Snapshots` | tweet/models.py:182-229 | both field sets are built, tweet first, before any write; the pair exists exactly when both do; a tweet defect is reported before a user defect |
| `Ingestion.SnapshotsIffComplete` | tweet/models.py:182-229 | the field sets can be built exactly when the input is complete: no required key missing and both dates parse |
| `Ingestion.Ingest` | tweet/models.py:146-249 | skipped exactly when `user` is present, the retweet id is readable and the skip rule fires; saved exactly when the input is complete and not skipped; the error reported is the first defect in read order (`user`, then with `save_rts` false the retweeted id, then a `null` author, then the field sets); failure and skip leave the store unchanged; a save upserts the two snapshots under `raw["id"]` and `raw["user"]["id"]`, and the tweet's `user_id` is the author's id |
| `Ingestion.MissingUserAlwaysFails` | tweet/models.py:151-158 | a missing `user` key fails with that key, whatever `save_rts` is, and writes nothing |
| `Ingestion.SkipReadsNoFurther` | tweet/models.py:156-158 | with `save_rts` false and a truthy retweet id the call returns nothing and the store is unchanged, whatever the rest of the status holds |
| `Ingestion.NeverSkippedWithoutRetweetFilter` | tweet/models.py:152-157 | with `save_rts` true, or without a `retweeted_status` object, the status is never skipped |
| `Ingestion.FilteredRetweetIdReadFirst` | tweet/models.py:151-157 | with `save_rts` false, a `retweeted_status` without `id` is reported right after the `user` key, whatever else the status holds |
| `Ingestion.KeptRetweetIdReadLate` | tweet/models.py:157-199 | with `save_rts` true, a `null` author, a missing tweet key or a bad `created_at` is reported before a missing retweeted id, which is reported once all earlier reads succeed |
| `Ingestion.IngestUpserts` | tweet/models.py:231-247 | after a save the tweet table holds the returned row at `raw["id"]` and the user table holds the returned row at `raw["user"]["id"]`; every other key of either table keeps its row |
| `Ingestion.IngestSizes` | tweet/models.py:232-243 | a save adds one row to a table when its key is new and none when it already exists |
| `Ingestion.StoredCountsSanitized` | tweet/models.py:160-219 | each of the three tweet counts and the five user counts is stored as the sanitized input count (unknown when negative or absent, else unchanged), so none is negative |
| `Ingestion.RetweetedIdDerivation` | tweet/models.py:152-199 | the stored `retweeted_status_id` is `None` exactly when there is no `retweeted_status` object or its id is `null`, and equals that id otherwise |
| `Ingestion.IngestPreservesConsistent` | tweet/models.py:182-247 | every row stays under its own external id and no count becomes negative |
| `Ingestion.IngestIdempotent` | tweet/models.py:182-247 | ingesting the same status twice gives the same outcome and the same store as once; no key is added by the second call |
| `Ingestion.IngestCommutes` | tweet/models.py:231-247 | two saved statuses with different tweet ids and different author ids give the same store in either order |
| `Queries.IsRetweet` | tweet/models.py:110-112 | `is_retweet` compares the id with `None`: no id means not a retweet, and a retweet of status `0` counts |
| `Queries.UserName` | tweet/models.py:114-117 | the author's name when a user row with the tweet's `user_id` exists, else `None` |
| `Queries.GetCreatedInRange` | tweet/models.py:119-124 | exactly the rows with `start <= created_at < end`, each unchanged |
| `Queries.RangeIsHalfOpen` | tweet/models.py:124 | a row created at `end` is never returned; one created at `start` is, when `start < end` |
| `Queries.RangeSplits` | tweet/models.py:124 | for `a <= b <= c`, `[a, c)` is the disjoint union of `[a, b)` and `[b, c)` |
| `Queries.GetEarliestCreatedAt` | tweet/models.py:126-132 | `None` exactly on an empty table; otherwise a creation time of some row that is `<=` every row's |
| `Queries.GetLatestCreatedAt` | tweet/models.py:134-140 | `None` exactly on an empty table; otherwise a creation time of some row that is `>=` every row's |
| `Queries.ExtremesUnique` | tweet/models.py:126-140 | the minimum and the maximum are each unique |
| `Queries.ExtremesBracket` | tweet/models.py:126-140 | every row's creation time lies between the earliest and the latest, and the earliest is not after the latest |
| `Queries.SavedTweetHasUserName` | tweet/models.py:114-117 | right after a save, `user_name` of the returned tweet is the author's name from the input |
| `Queries.SavedIsRetweetIff` | tweet/models.py:110-112 | a saved tweet is a retweet exactly when the input has a `retweeted_status` object with a non-null id |
| `Queries.StoredRetweetsHaveIdZero` | tweet/models.py:157 | with `save_rts` false, a saved tweet that is a retweet has retweeted-status id `0` |
| `Scenarios.OriginalIsSavedSanitized` | tweet/models.py:146-249 | an original post with reply count -1 is saved with reply count unknown, no retweet id, author id 7, one row in each table |
| `Scenarios.EditOverwrites` | tweet/models.py:232-238 | re-ingesting tweet 100 with edited text leaves one row for 100 holding the new text |
| `Scenarios.RetweetFiltering` | tweet/models.py:156-158 | a retweet is skipped without writing when `save_rts` is false and stored when it is true |
| `Scenarios.NullAuthorRetweet` | tweet/models.py:151-172 | a `null` author is ignored for a skipped retweet and fails when the retweet is kept |
| `Scenarios.DefectsFail` | tweet/models.py:182-229 | a missing `text`, a missing `user.verified` and an unparsable date each fail, naming the defect, and write nothing |
| `Scenarios.NullDatesFail` | tweet/models.py:16-20 | a `null` `created_at`, on the tweet or on the author, fails as unparsable and writes nothing |
| `Scenarios.IdlessRetweetErrors` | tweet/models.py:151-199 | a retweet without `id` kept by `save_rts` reports a `null` author, a missing `text`, a bad date, and only then the missing id; filtered, it reports the missing id first |
| `Scenarios.RetweetOfZeroIsKept` | tweet/models.py:157 | a retweet of status `0` is saved with `save_rts` false and counts as a retweet |

## Left out

- Time zones: `USE_TZ` and the attached `tzinfo` are not modelled. Date-times are compared field by field, which is how Python compares two datetimes that carry the same zone. A mix of aware and naive values cannot arise inside one process.
- The internals of `email.utils.parsedate` (date-time syntax of section 3.3 of RFC 2822) are not modelled. The parser is a parameter.
- `updated_at` (`auto_now`) is not modelled: it depends on the clock. It is also the one field the idempotence lemma would otherwise have to exclude.
- The internal `BigAutoField` primary keys are not modelled. Rows are identified by their external ids only.
- Database failures are not modelled. This covers the race between two `get_or_create` calls for the same new id, and a failure of the user write after the tweet write. The store in the model cannot fail.
- Storage-layer rules are not modelled: `CharField` and `URLField` limits, `PositiveIntegerField` checks, the 64-bit range of `BigIntegerField`. The same goes for the `NOT NULL` rejection of a JSON `null` in a non-nullable column such as `text`. The code does not enforce any of these itself.
- Inputs of the wrong JSON type are not modelled: a string count, or a `retweeted_status` that is not an object. The raw record is typed. `null` is modelled where the code itself reacts to it: `user`, `retweeted_status` and its `id`, both `created_at` keys, and every key read with `.get`.
- A `null` in the other required keys is not modelled: `id`, `text`, `truncated`, and the user's `id`, `name` and the rest. The code copies such a `null` into the field set, and the database then rejects it (see above).
- `save_rts` is a boolean, so `save_rts is False` is `not save_rts`.
- The `entities` payloads are carried unchanged as an opaque serialized value.
- The query results are maps keyed by `tweet_id`. They are not lazy querysets, and their order is not modelled.
- `__unicode__` and the admin configuration in `tweet/admin.py` (list columns, search fields, ordering) have no behaviour to verify.
