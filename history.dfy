/**
  The versioned backup bucket as the restore side sees it: every key has a
  history of revisions (tagged objects) and delete markers, listed newest
  written first. The listing, the "latest at or before checktime" selection and
  the body fetch live in ssmbak/restore/aws.py, which is not part of this
  model; they are defined here as the behaviour the restore tests assert, with
  two choices of this model where no test decides (the scope of a name that is
  itself a key, and the winner of a tie), and the restore layer consumes them
  as its oracle.
 */
module History {
  import opened Wrappers
  import opened Tags

  /** One entry of a key's history in the bucket. */
  datatype Entry =
    | Marker(versionId: string, lastModified: int)
    | Revision(versionId: string, lastModified: int, tags: map<string, string>, body: string)

  /** Per key, the entries in listing order: most recently written first. */
  type Store = map<string, seq<Entry>>

  /**
    The time the change happened: the ingestion time tag when the entry carries
    a readable one, otherwise the bucket's own last-modified time (always the
    case for delete markers, which cannot carry tags).
   */
  function EventTime(e: Entry): int
  {
    match e
    case Marker(_, lm) => lm
    case Revision(_, lm, tags, _) =>
      if TimeTag in tags && ParseInt(tags[TimeTag]).Some? then ParseInt(tags[TimeTag]).value else lm
  }

  /**
    Index of the entry that describes the key at `checktime`: entries later than
    `checktime` are ignored and the greatest event time wins; on a tie the entry
    written last (earliest in the listing) wins.
   */
  function LatestIndex(entries: seq<Entry>, checktime: int): (r: Option<nat>)
    ensures r.None? <==> forall j | 0 <= j < |entries| :: EventTime(entries[j]) > checktime
    ensures r.Some? ==> r.value < |entries| && EventTime(entries[r.value]) <= checktime
    ensures r.Some? ==> forall j | 0 <= j < |entries| && EventTime(entries[j]) <= checktime ::
                          EventTime(entries[j]) <= EventTime(entries[r.value])
    ensures r.Some? ==> forall j | 0 <= j < r.value && EventTime(entries[j]) <= checktime ::
                          EventTime(entries[j]) < EventTime(entries[r.value])
  {
    if entries == [] then None
    else
      var rest := LatestIndex(entries[1..], checktime);
      assert forall j | 1 <= j < |entries| :: entries[j] == entries[1..][j - 1];
      if EventTime(entries[0]) > checktime then
        (if rest.None? then None else Some(rest.value + 1))
      else if rest.Some? && EventTime(entries[1..][rest.value]) > EventTime(entries[0]) then
        Some(rest.value + 1)
      else
        Some(0)
  }

  /** The selected entry itself. */
  function LatestAt(entries: seq<Entry>, checktime: int): Option<Entry>
  {
    var i := LatestIndex(entries, checktime);
    if i.Some? then Some(entries[i.value]) else None
  }

  /**
    Keys a listing for `name` covers: the key itself and the keys under
    `name + "/"`, only one level down unless `recurse`. A key that merely starts
    with `name` (such as `name + "a"`) is never covered.
   */
  predicate InScope(key: string, name: string, recurse: bool)
  {
    key == name
    || (|key| > |name| + 1 && key[..|name| + 1] == name + "/"
        && (recurse || '/' !in key[|name| + 1..]))
  }

  /** A cached version: what the listing returns for one key. */
  datatype Version =
    | Deleted(versionId: string, lastModified: int)
    | Content(versionId: string, lastModified: int, tagset: map<string, string>, body: Option<string>)

  /** The listing reports an entry without its body; bodies are fetched lazily. */
  function ToVersion(e: Entry): Version
  {
    match e
    case Marker(vid, lm) => Deleted(vid, lm)
    case Revision(vid, lm, tags, _) => Content(vid, lm, tags, None)
  }

  /** `_get_versions(name, checktime, recurse)`: the latest version at checktime of every key in scope that has one. */
  function ListVersions(store: Store, name: string, checktime: int, recurse: bool): map<string, Version>
  {
    map k | k in store && InScope(k, name, recurse) && LatestAt(store[k], checktime).Some?
      :: ToVersion(LatestAt(store[k], checktime).value)
  }

  /** `_get_version_body(key, versionId)`: the body of that revision, if the bucket has it. */
  function FetchBody(store: Store, key: string, versionId: string): Option<string>
  {
    if key in store then BodyIn(store[key], versionId) else None
  }

  function BodyIn(entries: seq<Entry>, versionId: string): (r: Option<string>)
    ensures r.None? <==> forall j | 0 <= j < |entries| :: !(entries[j].Revision? && entries[j].versionId == versionId)
  {
    if entries == [] then None
    else if entries[0].Revision? && entries[0].versionId == versionId then Some(entries[0].body)
    else
      assert forall j | 1 <= j < |entries| :: entries[j] == entries[1..][j - 1];
      BodyIn(entries[1..], versionId)
  }

  /** A revision written by the ingestion path carries a readable time tag and a type tag. */
  predicate WellTagged(e: Entry)
  {
    e.Revision? ==> TagsReadable(e.tags)
  }

  predicate WellTaggedStore(store: Store)
  {
    forall k, j | k in store && 0 <= j < |store[k]| :: WellTagged(store[k][j])
  }

  /** How the versioned bucket records a new write for `key`: it becomes the newest entry. */
  function Record(store: Store, key: string, e: Entry): (r: Store)
    ensures r.Keys == store.Keys + {key}
    ensures |r[key]| >= 1 && r[key][0] == e
    ensures r[key][1..] == (if key in store then store[key] else [])
    ensures forall k | k in store && k != key :: r[k] == store[k]
  {
    store[key := [e] + (if key in store then store[key] else [])]
  }

  // ---- Properties of the selection, as the restore tests assert them ----

  /**
    A version written after checktime is ignored and the older one is
    reported (tests/test_use_tags.py:145-185).
   */
  lemma LaterVersionIgnored(newer: Entry, older: Entry, checktime: int)
    requires EventTime(older) <= checktime < EventTime(newer)
    ensures LatestAt([newer, older], checktime) == Some(older)
  {
    MostRecentWins([newer, older], checktime, 1);
  }

  /**
    Among several versions before checktime the most recent one wins
    (tests/test_use_tags.py:187-234).
   */
  lemma MostRecentWins(entries: seq<Entry>, checktime: int, k: nat)
    requires k < |entries| && EventTime(entries[k]) <= checktime
    requires forall j | 0 <= j < |entries| && j != k && EventTime(entries[j]) <= checktime ::
               EventTime(entries[j]) < EventTime(entries[k])
    ensures LatestAt(entries, checktime) == Some(entries[k])
  {
    assert LatestIndex(entries, checktime).Some?;
  }

  /**
    The entry written last wins a tie: when no other entry has a later event
    time, the newest entry is selected even if an older one has the same time.
   */
  lemma NewestWinsTies(entries: seq<Entry>, checktime: int)
    requires |entries| > 0 && EventTime(entries[0]) <= checktime
    requires forall j | 0 <= j < |entries| :: EventTime(entries[j]) <= EventTime(entries[0])
    ensures LatestAt(entries, checktime) == Some(entries[0])
  {
    assert LatestIndex(entries, checktime).Some?;
  }

  /** A checktime before the whole history finds nothing (tests/test_path.py:131-133). */
  lemma BeforeHistoryFindsNothing(entries: seq<Entry>, checktime: int)
    requires forall j | 0 <= j < |entries| :: checktime < EventTime(entries[j])
    ensures LatestAt(entries, checktime) == None
  {
  }

  /**
    An event exactly at checktime already counts, and it wins over an older one.
   */
  lemma BoundaryIsInclusive(e: Entry, older: Entry)
    requires EventTime(older) < EventTime(e)
    ensures LatestAt([e, older], EventTime(e)) == Some(e)
  {
  }

  /**
    A delete marker written to the bucket after a revision, but whose event time
    is earlier than the revision's tagged time, does not shadow that revision
    (tests/test_stale_deletemarker_bug.py:62-123).
   */
  lemma StaleMarkerDoesNotShadow(marker: Entry, revision: Entry, checktime: int)
    requires marker.Marker? && revision.Revision?
    requires EventTime(marker) < EventTime(revision) <= checktime
    ensures LatestAt([marker, revision], checktime) == Some(revision)
  {
    MostRecentWins([marker, revision], checktime, 1);
  }

  /**
    Create, delete, re-create (tests/test_deletemarker_bug.py:89-134): between
    create and delete the first value, between delete and re-create the marker,
    after the re-create the new value.
   */
  lemma RecreateAfterDelete(created: Entry, deleted: Entry, recreated: Entry, checktime: int)
    requires created.Revision? && deleted.Marker? && recreated.Revision?
    requires EventTime(created) < EventTime(deleted) < EventTime(recreated)
    requires EventTime(created) <= checktime
    ensures checktime < EventTime(deleted) ==>
              LatestAt([recreated, deleted, created], checktime) == Some(created)
    ensures EventTime(deleted) <= checktime < EventTime(recreated) ==>
              LatestAt([recreated, deleted, created], checktime) == Some(deleted)
    ensures EventTime(recreated) <= checktime ==>
              LatestAt([recreated, deleted, created], checktime) == Some(recreated)
  {
    var es := [recreated, deleted, created];
    if checktime < EventTime(deleted) {
      MostRecentWins(es, checktime, 2);
    } else if checktime < EventTime(recreated) {
      MostRecentWins(es, checktime, 1);
    } else {
      MostRecentWins(es, checktime, 0);
    }
  }

  /**
    A key query never reports a key that only shares its spelling as a prefix
    (tests/test_key.py:14-28): `name + "a"` is outside the scope of `name`.
   */
  lemma KeyIsNotPrefix(name: string, c: char, recurse: bool)
    requires c != '/'
    ensures !InScope(name + [c], name, recurse)
  {
  }

  /** Every key the listing reports has a selected entry, and its body can be fetched. */
  lemma ListedVersionsAreFetchable(store: Store, name: string, checktime: int, recurse: bool, k: string)
    requires k in ListVersions(store, name, checktime, recurse)
    ensures k in store && InScope(k, name, recurse)
    ensures LatestAt(store[k], checktime).Some?
    ensures ListVersions(store, name, checktime, recurse)[k] == ToVersion(LatestAt(store[k], checktime).value)
    ensures ListVersions(store, name, checktime, recurse)[k].Content? ==>
              FetchBody(store, k, ListVersions(store, name, checktime, recurse)[k].versionId).Some?
  {
    var i := LatestIndex(store[k], checktime).value;
    var e := store[k][i];
    if e.Revision? {
      assert store[k][i].Revision? && store[k][i].versionId == e.versionId;
    }
  }
}
