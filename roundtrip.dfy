/**
  Backup followed by restore: what the backup function writes for a change
  event is what a later preview of that key reports.
 */
module RoundTrip {
  import opened Wrappers
  import opened History
  import opened Ingest
  import opened Actions

  /** The history of `key` in a store, empty when the key was never written. */
  function HistoryOf(store: Store, key: string): seq<Entry>
  {
    if key in store then store[key] else []
  }

  /**
    An entry just recorded for `key`, with no older entry of that key happening
    later, is what a lookup at or after its event time finds; a revision's body
    can then be fetched by its version id.
   */
  lemma RecordedEntryFound(store: Store, key: string, e: Entry, checktime: int)
    requires EventTime(e) <= checktime
    requires forall j | 0 <= j < |HistoryOf(store, key)| :: EventTime(HistoryOf(store, key)[j]) <= EventTime(e)
    ensures Lookup(Record(store, key, e), checktime, key) == Some(ToVersion(e))
    ensures e.Revision? ==> FetchBody(Record(store, key, e), key, e.versionId) == Some(e.body)
  {
    var st := Record(store, key, e);
    var entries := st[key];
    assert entries[1..] == HistoryOf(store, key);
    assert forall j | 1 <= j < |entries| :: entries[j] == entries[1..][j - 1];
    NewestWinsTies(entries, checktime);
    assert InScope(key, key, false);
    assert key in ListVersions(st, key, checktime, false);
  }

  /**
    A create or update backed up at time `t` is what a later preview reports
    for its key, provided nothing already in the bucket for that key happened
    later: the live value, the type, `t` as the modified time, and the
    description exactly when the event had one.
   */
  lemma BackupThenPreview(s: S3State, clock: nat -> int, a: Action, bucket: string,
                          live: map<string, string>, checktime: int)
    requires bucket in s.buckets
    requires a.operation != "Delete" && a.name in live
    requires a.time <= checktime
    requires forall j | 0 <= j < |HistoryOf(s.buckets[bucket], a.name)| ::
               EventTime(HistoryOf(s.buckets[bucket], a.name)[j]) <= a.time
    ensures var st := AfterSent(s, clock, BackupSent(a, Some(bucket), live)).buckets[bucket];
            && Resolve(st, checktime, map[], a.name)
               == Some(Content(VersionId(s.written), clock(s.written), BackupTags(a), Some(live[a.name])))
            && Ready(Resolve(st, checktime, map[], a.name))
            && PreviewOf(a.name, Resolve(st, checktime, map[], a.name))
               == Restored(a.name, live[a.name], a.paramType, a.time, a.description)
  {
    var req := PutObject(bucket, a.name, BackupTags(a), live[a.name]);
    assert BackupSent(a, Some(bucket), live) == Some(req);
    var e := Stamped(req, VersionId(s.written), clock(s.written));
    TagsRoundTrip(a);
    assert EventTime(e) == a.time;
    RecordedEntryFound(s.buckets[bucket], a.name, e, checktime);
  }

  /**
    A delete is timed by the bucket, not by the event: a later preview reports
    the key as deleted at the bucket's last-modified time for the marker,
    provided nothing already in the bucket for that key happened later.
   */
  lemma DeleteThenPreview(s: S3State, clock: nat -> int, a: Action, bucket: string,
                          live: map<string, string>, checktime: int)
    requires bucket in s.buckets
    requires a.operation == "Delete"
    requires clock(s.written) <= checktime
    requires forall j | 0 <= j < |HistoryOf(s.buckets[bucket], a.name)| ::
               EventTime(HistoryOf(s.buckets[bucket], a.name)[j]) <= clock(s.written)
    ensures var st := AfterSent(s, clock, BackupSent(a, Some(bucket), live)).buckets[bucket];
            && Resolve(st, checktime, map[], a.name) == Some(Deleted(VersionId(s.written), clock(s.written)))
            && PreviewOf(a.name, Resolve(st, checktime, map[], a.name)) == Gone(a.name, clock(s.written))
  {
    var req := DeleteObject(bucket, a.name);
    assert BackupSent(a, Some(bucket), live) == Some(req);
    RecordedEntryFound(s.buckets[bucket], a.name, Stamped(req, VersionId(s.written), clock(s.written)), checktime);
  }

  /** A create or update of a parameter that vanished before the backup leaves the bucket as it was. */
  lemma VanishedParameterLeavesBucket(s: S3State, clock: nat -> int, a: Action, bucket: string,
                                      live: map<string, string>)
    requires bucket in s.buckets
    requires a.operation != "Delete" && a.name !in live
    ensures AfterSent(s, clock, BackupSent(a, Some(bucket), live)) == s
    ensures BackupOutcome(a, Some(bucket), live) == Status(204)
  {
  }
}
