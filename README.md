# ssmbak: point-in-time backup and restore of SSM parameters, in Dafny

ssmbak backs up AWS SSM parameters into a versioned S3 bucket and restores them
to their state at a chosen time ("checktime").

- **Backup side** (`ssmbak/backup/ssmbak.py`). A Lambda function receives parameter-store change events through SQS and writes each one to the bucket under the parameter's name.
  - A create or update becomes a `put_object` of the live value. It is tagged with the event time in whole seconds (`ssmbakTime`), the parameter type (`ssmbakType`) and, when the event has one, the description (`ssmbakDescription`).
  - A delete becomes a `delete_object`, which leaves a delete marker.
- **Restore side** (`ssmbak/restore/actions.py`). A `Path` names one key or a path, a checktime and a recurse flag. It keeps a per-object cache of the version found for each key.
  - `preview()` summarises, key by key, what the parameter was at checktime: a value with its type, time and description; deleted at a time; or nothing.
  - `restore()` deletes the deleted keys in one batch and writes back every other summary.

The model has six modules:

- `Wrappers`: `Option`.
- `Tags`: the tag names and the decimal text form of the event time, with its round trip.
- `History`: the bucket as the restore side reads it. It covers history entries, the event time of an entry, which entry describes a key at checktime, the scope of a listing, the listing itself and the body fetch.
  - These operations live in `ssmbak/restore/aws.py`, which is not part of this model.
  - They are defined here as the behaviour that the restore tests assert of it. Where no test decides, the model makes a choice, listed under "## Left out".
- `Order`: the ascending key order in which `get_names` lists keys.
- `Actions`: `Path` as a class whose `versions` field is the cache, with `get_versions`, `get_names`, `get_latest_version`, `preview_key`, `preview` and `restore`.
  - Writes to the live parameter store are recorded as calls on an `SsmClient`.
  - Pure functions describe the result of each method in terms of the previous cache.
- `Ingest`: `process_message`, `backup` and `process_event`. The bucket is an `S3Client` whose state is the `Store` the restore side reads.
- `RoundTrip`: a value backed up by `Ingest` is what a later `Actions` preview reports.

`restore` writes back every summary that is not a deletion, whether or not the live value already matches (ssmbak/restore/actions.py:193-199).

## Model

| member | source | states |
|---|---|---|
| Actions.Path.constructor | ssmbak/restore/actions.py:65-68 | the name loses its trailing slashes, checktime and recurse are kept, the cache starts empty |
| Actions.StripSlashes | ssmbak/restore/actions.py:65 | the result is the name with exactly its trailing `/` characters removed: a prefix, not ending in `/`, followed in the input only by `/` |
| Actions.TrailingSlashIgnored | ssmbak/restore/actions.py:65 | "p/" and "p" give the same path name |
| Actions.StripIdempotent | ssmbak/restore/actions.py:65 | stripping an already stripped name changes nothing |
| Actions.Path.GetVersions | ssmbak/restore/actions.py:125-134 | a non-empty cache is answered as is; an empty one is filled with the listing for the path at checktime and the listing is returned |
| Actions.Path.GetNames | ssmbak/restore/actions.py:86-88 | every key of the version map exactly once, in ascending order; the cache becomes the working version map |
| Order.Least | ssmbak/restore/actions.py:87 | the least key of a non-empty set, below every other key |
| Order.SortedUnique | ssmbak/restore/actions.py:87 | two strictly ascending lists with the same keys are the same list, so the key order is determined by the cache |
| Order.BelowTransitive | ssmbak/restore/actions.py:87 | the key order is transitive |
| Order.BelowTotal | ssmbak/restore/actions.py:87 | any two different keys are ordered one way or the other |
| Order.BelowIrreflexive | ssmbak/restore/actions.py:87 | no key is below itself |
| Order.SortedDistinct | ssmbak/restore/actions.py:87 | a strictly ascending key list has no repeated key |
| Actions.Path.GetLatestVersion | ssmbak/restore/actions.py:262-277 | the answer is the cached version or the single-key lookup at checktime, with its body fetched when it lacks one; the cache then holds that answer for the key, and a key with no version stays out of it |
| Actions.CacheHitIgnoresBackend | ssmbak/restore/actions.py:262-263 | a cached version that needs no body is returned whatever the bucket holds and whatever the checktime, and the cache is unchanged |
| Actions.MissInsertsOnlyFound | ssmbak/restore/actions.py:264-270 | on a miss the key is cached exactly when the lookup reports it, with its body fetched; otherwise the answer is empty and the cache unchanged |
| Actions.TooEarlyIsEmpty | ssmbak/restore/actions.py:264-276 | a checktime before a key's whole history gives an empty answer and leaves the cache alone |
| Actions.BodyFetchedOnlyWhenMissing | ssmbak/restore/actions.py:272-273 | only a content version without a body is touched, and then it gets the body the bucket holds for its version id |
| Actions.FillIdempotent | ssmbak/restore/actions.py:272-273 | fetching bodies a second time changes nothing |
| Actions.ResolveReady | ssmbak/restore/actions.py:262-277 | over a well-tagged bucket every answer can be summarised without error and the cache stays consistent |
| Actions.ListingConsistent | ssmbak/restore/actions.py:128-133 | every content version a listing of a well-tagged bucket reports has readable tags and a fetchable body |
| Actions.PreviewOf | ssmbak/restore/actions.py:220-238 | the summary keeps the name; it is empty exactly when there is no version, a deletion exactly for a delete marker (with the marker's time), and otherwise the body, the type tag, the parsed time tag and the description exactly when tagged |
| Actions.Path.PreviewKey | ssmbak/restore/actions.py:220-238 | the summary of what `get_latest_version` answers for the key, with the cache updated as that call leaves it |
| Actions.Path.PreviewKeys | ssmbak/restore/actions.py:158 | one summary per given key, in order, each of that key's cached version with its body fetched; afterwards every cached body has been fetched |
| Actions.Path.Preview | ssmbak/restore/actions.py:157-159 | the result summarises the working version map: one record per key, in ascending key order, each the summary of that key's version; afterwards every cached body has been fetched |
| Actions.PreviewsSummarise | ssmbak/restore/actions.py:157-159 | the records built key by key in ascending order are the summary of the cache |
| Actions.SummariesAgree | ssmbak/restore/actions.py:157-159 | a cache and the same cache with its bodies fetched have the same summary |
| Actions.PreviewRepeats | ssmbak/restore/actions.py:193-199 | a second `preview` on the same object, as `restore` makes, gives the same list as the first |
| Actions.Path.Restore | ssmbak/restore/actions.py:193-199 | returns what `preview` returns; the live store gets one batched delete of the deleted keys, then one write-back per other summary in preview order |
| Actions.SsmClient.RestoreEach | ssmbak/restore/actions.py:197-198 | one write-back call per summary, in order, appended to the calls already made |
| Actions.SsmClient.DeleteMulti | ssmbak/restore/actions.py:194-196 | one batched delete call for the given names |
| Actions.SsmClient.RestorePreview | ssmbak/restore/actions.py:198 | one write-back call for the given summary |
| Actions.Gones | ssmbak/restore/actions.py:195 | exactly the summaries that are deletions |
| Actions.Undeleted | ssmbak/restore/actions.py:197 | exactly the summaries that are not deletions |
| Actions.DeletedNames | ssmbak/restore/actions.py:195 | the names of the deletion summaries, in preview order: the list handed to the batched delete |
| Ingest.ProcessMessage | ssmbak/backup/ssmbak.py:39-50 | the action carries the detail's name, type and operation, the event time, and the description only when the detail has one; its partner is Ingest.MessageTagsRoundTrip |
| Ingest.BackupTags | ssmbak/backup/ssmbak.py:88-93 | the tag map: the event time as decimal text, the type, and the description when there is one; its partner is Ingest.TagsRoundTrip |
| Ingest.Planned | ssmbak/backup/ssmbak.py:75-96 | the request `backup` sends given the live values: a delete of the key, a tagged put of the live value, or nothing for a vanished parameter; its partner is Ingest.PlannedRequest |
| Ingest.BackupSent | ssmbak/backup/ssmbak.py:67-99 | the request `backup` sends: nothing when no bucket name is configured, otherwise the planned request to that bucket |
| Ingest.BackupOutcome | ssmbak/backup/ssmbak.py:67-99 | what `backup` returns: exit without a bucket name, 204 for a vanished parameter, otherwise the bucket's status for the request; its partner is Ingest.BackupOutcomeMatchesWrite |
| Ingest.Recognised | ssmbak/backup/ssmbak.py:133 | the operation is one of Create, Update and Delete |
| Tags.IntToString | ssmbak/backup/ssmbak.py:89-94 | the decimal text of an integer, with a leading minus sign when negative, as written into the time tag; its partner is Tags.IntRoundTrip |
| Ingest.RunFrom | ssmbak/backup/ssmbak.py:131-141 | records handled in order: unknown operations give 205 and write nothing, others are backed up, an exit ends the run, the last result is returned; its partners are Ingest.ResultIsLast, Ingest.WritesExactlySent and Ingest.SkippedRecordsWriteNothing |
| Ingest.SentCount | ssmbak/backup/ssmbak.py:133-134 | the number of records that are a create, update or delete and whose backup sends a request |
| Ingest.WritesExactlySent | ssmbak/backup/ssmbak.py:131-141 | with a bucket configured, a run makes exactly one write per create, update or delete whose backup sends a request, and none for any other record |
| Ingest.SkippedRecordsWriteNothing | ssmbak/backup/ssmbak.py:135-139 | a run of records with other operations leaves the bucket unchanged and returns 205 |
| History.EventTime | tests/test_stale_deletemarker_bug.py:62-123 | the parsed time tag of a revision when it is readable, otherwise the bucket's last-modified time, which is always the case for a delete marker |
| History.InScope | tests/test_key.py:14-28 | the name itself, or a key under `name + "/"`, only one level down unless recursing |
| History.ListVersions | ssmbak/restore/actions.py:128-132 | for every key in scope that has an entry at or before checktime, the selected entry without its body |
| History.FetchBody | ssmbak/restore/actions.py:273 | the body of the revision of that key with that version id, or nothing when there is none |
| Actions.Working | ssmbak/restore/actions.py:125-134 | what `get_versions` answers: the cache when it is non-empty, otherwise the listing for the path at checktime |
| Actions.Lookup | ssmbak/restore/actions.py:265-270 | the single-key listing's version for the key itself, or nothing when that listing does not report it |
| Actions.Fill | ssmbak/restore/actions.py:272-273 | a content version without a body gets the body the bucket holds for its version id; any other version is left as it is; its partners are Actions.BodyFetchedOnlyWhenMissing and Actions.FillIdempotent |
| Actions.Resolve | ssmbak/restore/actions.py:262-277 | the cached version of the key, or the single-key lookup at checktime when not cached, with the body fetched when a content version lacks one; its partners are Actions.CacheHitIgnoresBackend, Actions.MissInsertsOnlyFound and Actions.ResolveReady |
| Actions.CacheAfter | ssmbak/restore/actions.py:262-277 | the cache with the key mapped to the answer, unchanged when there is no answer |
| Actions.GonesKeepOrder | ssmbak/restore/actions.py:195 | the deleted group is an order-preserving filter of the preview list: splitting the list splits the group at the same place |
| Actions.UndeletedKeepOrder | ssmbak/restore/actions.py:197 | the written-back group is an order-preserving filter of the preview list: splitting the list splits the group at the same place |
| Actions.RestorePartitions | ssmbak/restore/actions.py:194-198 | the deleted and the written-back groups together hold every summary exactly once |
| Actions.RestoreGroupsDisjoint | ssmbak/restore/actions.py:194-198 | with distinct names, no key is both deleted and written back |
| History.LatestIndex | tests/test_use_tags.py:187-234 | the selected entry is at or before checktime and has the greatest event time among those; an earlier-listed eligible entry has a strictly smaller time; nothing is selected exactly when every entry is later than checktime |
| History.LaterVersionIgnored | tests/test_use_tags.py:145-185 | a version after checktime is skipped and the older one reported |
| History.MostRecentWins | tests/test_use_tags.py:187-234 | among the entries at or before checktime, the one with the strictly greatest event time is selected |
| History.NewestWinsTies | tests/test_use_tags.py:187-234 | when no entry happened later than the newest written one, the newest written one is selected |
| History.BeforeHistoryFindsNothing | tests/test_path.py:131-133 | a checktime before every entry selects nothing |
| History.BoundaryIsInclusive | ssmbak/restore/actions.py:40 | an entry whose event time equals checktime counts and wins over an older one (the "at or before" reading of checktime is a choice of this model) |
| History.StaleMarkerDoesNotShadow | tests/test_stale_deletemarker_bug.py:62-123 | a delete marker written after a revision but with an earlier event time does not hide that revision |
| History.RecreateAfterDelete | tests/test_deletemarker_bug.py:89-134 | create, delete, re-create: the first value before the delete, the marker between delete and re-create, the new value after |
| History.KeyIsNotPrefix | tests/test_key.py:14-28 | a key that merely extends the name by a character other than `/` is outside the name's scope |
| History.ListedVersionsAreFetchable | tests/test_path.py:108-126 | every key the listing reports is in scope, has a selected entry, and a content version's body can be fetched |
| History.BodyIn | tests/test_path.py:108-126 | no body exactly when the history holds no revision with that version id |
| History.Record | ssmbak/backup/ssmbak.py:97-98 | a write becomes the newest entry of its key; other keys are untouched |
| Tags.IntRoundTrip | ssmbak/backup/ssmbak.py:88-91 | the decimal text written as the time tag parses back to the same integer |
| Tags.NatToStringValue | ssmbak/backup/ssmbak.py:89 | the decimal digits of a natural number have that value |
| Tags.NatToString | ssmbak/backup/ssmbak.py:89 | at least one decimal digit, and no leading zero |
| Tags.ParseInt | ssmbak/restore/actions.py:230 | a string of decimal digits parses to its value; only non-empty strings parse |
| Ingest.TagsRoundTrip | ssmbak/backup/ssmbak.py:88-94 | the tags written for an action are readable, the time tag parses to the event time, the type tag is the type, and the description tag is there exactly when the event had a description; no other tag is written |
| Ingest.MessageTagsRoundTrip | ssmbak/backup/ssmbak.py:39-50 | the event time and description of a message are what its backup tags carry |
| Ingest.PlannedRequest | ssmbak/backup/ssmbak.py:75-96 | a delete becomes a delete of the key; otherwise nothing is sent exactly when the parameter is gone, and a put carries the live value and readable tags with the event time; every request goes to the bucket under the parameter's name |
| Ingest.BackupOutcomeMatchesWrite | ssmbak/backup/ssmbak.py:67-99 | exit exactly when no bucket is configured, and then nothing is written; 200 exactly when a put is sent; 204 exactly for a delete or a vanished parameter; writes go only to the configured bucket |
| Ingest.Backup | ssmbak/backup/ssmbak.py:67-99 | the outcome and the bucket state are those of the planned request: exit without a bucket name, 204 for a vanished parameter, otherwise the bucket's status for the delete or the tagged put |
| Ingest.S3Client.Send | ssmbak/backup/ssmbak.py:98-99 | the request is recorded in its bucket as the key's newest entry, and the status is the bucket's answer |
| Ingest.Apply | ssmbak/backup/ssmbak.py:98 | the request's bucket gains the new entry for its key, the other buckets are untouched, and the write counter grows by one |
| Ingest.ProcessEvent | ssmbak/backup/ssmbak.py:131-141 | the records are handled in order, each known operation backed up and any other skipped with 205; the result and the bucket afterwards are those of the whole run |
| Ingest.ResultIsLast | ssmbak/backup/ssmbak.py:131-141 | with a bucket configured, the run returns the result of the last record |
| Ingest.NoBucketWritesNothing | ssmbak/backup/ssmbak.py:67-71 | without a bucket name nothing is written; the run exits at the first create, update or delete, and returns 205 when there is none |
| Ingest.WritesAtMostOnePerRecord | ssmbak/backup/ssmbak.py:131-141 | a run makes at most one write per record and creates no bucket |
| Ingest.RecordKeepsWellTagged | ssmbak/backup/ssmbak.py:88-98 | recording a well-tagged entry keeps the bucket well tagged |
| Ingest.RunKeepsWellTagged | ssmbak/backup/ssmbak.py:131-141 | every revision the backup function writes carries readable tags, so its bucket meets what the restore side requires |
| RoundTrip.RecordedEntryFound | ssmbak/restore/actions.py:264-273 | a just-recorded entry, with nothing older of its key happening later, is what a lookup at or after its time finds, and a revision's body can be fetched |
| RoundTrip.BackupThenPreview | ssmbak/restore/actions.py:220-233 | a create or update backed up at time t is what a later preview reports: the live value, its type, t, and the description exactly when the event had one |
| RoundTrip.DeleteThenPreview | ssmbak/restore/actions.py:222-224 | a backed-up delete is reported as deleted, at the bucket's write time rather than the event time |
| RoundTrip.VanishedParameterLeavesBucket | ssmbak/backup/ssmbak.py:83-86 | a create or update of a parameter already gone writes nothing and returns 204 |

## Left out

- Network I/O is not modelled. The boto3 clients, the Lambda runtime, the SQS envelope, logging, `handler` and `__repr__` are outside the model.
  - The bucket and the live parameter values are parameters of the model.
  - The live store's writes are a list of calls.
  - The bucket's version ids and last-modified clock are a write counter and a clock function.
- JSON decoding and `strptime` are not modelled. A message arrives already decoded, with its time as UTC seconds since the epoch. The format has whole seconds, so for actions built by `process_message` the `int(timestamp())` of the time tag is exact.
- The tagging string is not modelled. `urllib.parse.urlencode` on write and S3's decoding of the tag set on read are taken as exact inverses, so tags are a map.
- `Tags.ParseInt` does not model `int` accepting surrounding whitespace, a `+` sign or `_` separators. Only the forms `str` produces are parsed.
- `ssmbak/restore/aws.py` is not part of this model. `_get_versions`, `_get_version_body`, `_ssm_del_multi` and `_restore_preview` are replaced:
  - the first two by `History`, whose selection rule is the one the tests state, with the choices below where no test decides;
  - the last two by the call log of `Actions.SsmClient`. What the parameter store does with those calls is not modelled.
- `History.InScope` is a choice of this model for a name that is itself a key: without recursion, the listing also covers that key's direct children. The tests only show the children of a name that is not itself a key, and a key that merely extends the name being excluded.
- `History.LatestIndex` breaks ties by write order, which is a choice of this model: among entries with the same event time, the one written last wins. No test uses equal event times.
- `History.BoundaryIsInclusive` follows from another choice of this model: an entry whose event time equals checktime counts as at or before it. No test places an entry exactly at checktime.
- Python sets have no defined order, so `get_names` returns keys in an unspecified order. `Actions.Path.GetNames` fixes ascending order, which is one of the orders the source may produce.
- `Actions.Path.constructor` requires a well-tagged bucket. Malformed tags would make `preview_key` raise; `Ingest.RunKeepsWellTagged` shows the backup function never writes them.
- `Actions.Path.GetLatestVersion` does not model the `{}` answer when a listed version's body cannot be fetched. Over a well-tagged bucket every listed revision's body is present, so that case does not arise.
- `Ingest.ProcessEvent` requires at least one record. With none, the source returns an unbound variable and raises.
- `Ingest.Backup` does not model any other `ClientError` from `get_parameter`. For codes other than `ParameterNotFound` the source falls through to an unbound `response` and raises.
- `Ingest.Backup` requires the configured bucket to exist. S3 would raise for a missing bucket.
- `Ingest.S3Client.Send` answers 200 for a put and 204 for a delete. The statuses S3 returns are not visible in the source.
- `sys.exit(1)` is modelled as the `Exit` outcome, which ends the run.
- Ingest.Backup: the action time is whole seconds; a direct caller's sub-second time, which the source truncates with `int(...)` when writing the time tag (ssmbak/backup/ssmbak.py:89), is not modelled. Such callers pass `datetime.now()` (ssmbak/cli/backup_all.py:132, tests/helpers.py:51).
- The checktime is whole seconds. Sub-second checktimes are not modelled.
