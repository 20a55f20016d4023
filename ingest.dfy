/**
  The backup side (ssmbak/backup/ssmbak.py): a parameter-store change event,
  delivered as a queue record, becomes one write to the versioned backup
  bucket. A create or update stores the parameter's current value, tagged with
  the event's time, the parameter's type and its description; a delete stores a
  delete marker. The bucket is modelled as the `Store` the restore side reads.
 */
module Ingest {
  import opened Wrappers
  import opened Tags
  import opened History

  // ---- Messages and actions ----

  /** The `detail` object of a change event. */
  datatype Detail = Detail(name: string, paramType: string, operation: string, description: Option<string>)

  /** A decoded event body: its `time` as UTC seconds since the epoch, and its detail. */
  datatype Message = Message(time: int, detail: Detail)

  /** What `process_message` hands to `backup`. */
  datatype Action = Action(name: string, paramType: string, operation: string, time: int, description: Option<string>)

  /** `process_message`: the detail's fields and the event time; the description only when the detail has one. */
  function ProcessMessage(m: Message): Action
  {
    Action(m.detail.name, m.detail.paramType, m.detail.operation, m.time, m.detail.description)
  }

  /** The tag set written with a value: time, type, and the description when there is one. */
  function BackupTags(a: Action): map<string, string>
  {
    var base := map[TimeTag := IntToString(a.time), TypeTag := a.paramType];
    if a.description.Some? then base[DescriptionTag := a.description.value] else base
  }

  /**
    The tags written for an action read back as that action: the time tag
    parses to the event time, the type tag is the type, and the description tag
    is there exactly when the event had a description.
   */
  lemma TagsRoundTrip(a: Action)
    ensures TagsReadable(BackupTags(a))
    ensures ParseInt(BackupTags(a)[TimeTag]) == Some(a.time)
    ensures BackupTags(a)[TypeTag] == a.paramType
    ensures DescriptionTag in BackupTags(a) <==> a.description.Some?
    ensures a.description.Some? ==> BackupTags(a)[DescriptionTag] == a.description.value
    ensures BackupTags(a).Keys <= {TimeTag, TypeTag, DescriptionTag}
  {
    IntRoundTrip(a.time);
  }

  /** From message to tags: the event time and description of the message are what the tags carry. */
  lemma MessageTagsRoundTrip(m: Message)
    ensures ParseInt(BackupTags(ProcessMessage(m))[TimeTag]) == Some(m.time)
    ensures BackupTags(ProcessMessage(m))[TypeTag] == m.detail.paramType
    ensures DescriptionTag in BackupTags(ProcessMessage(m)) <==> m.detail.description.Some?
    ensures m.detail.description.Some? ==>
              BackupTags(ProcessMessage(m))[DescriptionTag] == m.detail.description.value
  {
    TagsRoundTrip(ProcessMessage(m));
  }

  // ---- Requests to the backup bucket ----

  /** The two calls `backup` makes on the bucket. */
  datatype S3Request =
    | DeleteObject(bucket: string, key: string)
    | PutObject(bucket: string, key: string, tagging: map<string, string>, body: string)

  /**
    The request `backup` sends for an action, given the live parameter values;
    nothing when a non-delete action names a parameter that is already gone.
   */
  function Planned(a: Action, bucket: string, live: map<string, string>): Option<S3Request>
  {
    if a.operation == "Delete" then Some(DeleteObject(bucket, a.name))
    else if a.name !in live then None
    else Some(PutObject(bucket, a.name, BackupTags(a), live[a.name]))
  }

  /**
    What `backup` sends: a delete for a delete, the live value with its tags
    otherwise, nothing for a vanished parameter; always under the action's name.
   */
  lemma PlannedRequest(a: Action, bucket: string, live: map<string, string>)
    ensures a.operation == "Delete" ==> Planned(a, bucket, live) == Some(DeleteObject(bucket, a.name))
    ensures a.operation != "Delete" ==> (Planned(a, bucket, live).None? <==> a.name !in live)
    ensures Planned(a, bucket, live).Some? ==>
              Planned(a, bucket, live).value.bucket == bucket && Planned(a, bucket, live).value.key == a.name
    ensures Planned(a, bucket, live).Some? && Planned(a, bucket, live).value.PutObject? ==>
              && a.operation != "Delete"
              && Planned(a, bucket, live).value.body == live[a.name]
              && ParseInt(Planned(a, bucket, live).value.tagging[TimeTag]) == Some(a.time)
              && TagsReadable(Planned(a, bucket, live).value.tagging)
  {
    if a.operation != "Delete" && a.name in live {
      TagsRoundTrip(a);
    }
  }

  /** The status the bucket answers: 200 for a put, 204 for a delete. */
  function StatusOf(req: S3Request): int
  {
    if req.PutObject? then 200 else 204
  }

  /** The bucket side: one store per bucket name, and how many writes it has taken. */
  datatype S3State = S3State(buckets: map<string, Store>, written: nat)

  /** The version id the bucket gives its `n`-th write. */
  function VersionId(n: nat): string
  {
    "v" + IntToString(n)
  }

  /** The history entry a request leaves behind. */
  function Stamped(req: S3Request, versionId: string, lastModified: int): Entry
  {
    match req
    case DeleteObject(_, _) => Marker(versionId, lastModified)
    case PutObject(_, _, tags, body) => Revision(versionId, lastModified, tags, body)
  }

  /** The bucket after one request, stamped with the bucket's clock reading for this write. */
  function Apply(s: S3State, clock: nat -> int, req: S3Request): (r: S3State)
    requires req.bucket in s.buckets
    ensures r.buckets.Keys == s.buckets.Keys && r.written == s.written + 1
    ensures r.buckets[req.bucket] == Record(s.buckets[req.bucket], req.key, Stamped(req, VersionId(s.written), clock(s.written)))
    ensures forall b | b in s.buckets && b != req.bucket :: r.buckets[b] == s.buckets[b]
  {
    var e := Stamped(req, VersionId(s.written), clock(s.written));
    S3State(s.buckets[req.bucket := Record(s.buckets[req.bucket], req.key, e)], s.written + 1)
  }

  /** The backup bucket as seen by the backup function: its state and the clock that stamps writes. */
  class S3Client {
    var state: S3State
    /** The bucket's last-modified time for its `n`-th write. */
    const clock: nat -> int

    constructor (state: S3State, clock: nat -> int)
      ensures this.state == state && this.clock == clock
    {
      this.state := state;
      this.clock := clock;
    }

    /** `delete_object` or `put_object`, returning the HTTP status of the response. */
    method Send(req: S3Request) returns (status: int)
      requires req.bucket in state.buckets
      modifies this
      ensures state == Apply(old(state), clock, req)
      ensures status == StatusOf(req)
    {
      state := Apply(state, clock, req);
      status := StatusOf(req);
    }
  }

  // ---- backup ----

  /** How `backup` ends: the process exits, or a status code is returned. */
  datatype Outcome = Exit | Status(code: int)

  /** What `backup` sends: nothing without a bucket name, otherwise the planned request. */
  function BackupSent(a: Action, bucketEnv: Option<string>, live: map<string, string>): Option<S3Request>
  {
    if bucketEnv.None? then None else Planned(a, bucketEnv.value, live)
  }

  /** What `backup` returns. */
  function BackupOutcome(a: Action, bucketEnv: Option<string>, live: map<string, string>): Outcome
  {
    if bucketEnv.None? then Exit
    else
      match Planned(a, bucketEnv.value, live)
      case None => Status(204)
      case Some(req) => Status(StatusOf(req))
  }

  /** The bucket after an optional request. */
  function AfterSent(s: S3State, clock: nat -> int, sent: Option<S3Request>): S3State
    requires sent.Some? ==> sent.value.bucket in s.buckets
  {
    if sent.Some? then Apply(s, clock, sent.value) else s
  }

  /**
    The outcome and the write of `backup` belong together: an exit writes
    nothing, a 204 for a non-delete writes nothing, a 200 is a put of the live
    value, and a write only ever goes to the configured bucket.
   */
  lemma BackupOutcomeMatchesWrite(a: Action, bucketEnv: Option<string>, live: map<string, string>)
    ensures BackupOutcome(a, bucketEnv, live).Exit? <==> bucketEnv.None?
    ensures BackupOutcome(a, bucketEnv, live).Exit? ==> BackupSent(a, bucketEnv, live).None?
    ensures BackupOutcome(a, bucketEnv, live) == Status(200) <==>
              BackupSent(a, bucketEnv, live).Some? && BackupSent(a, bucketEnv, live).value.PutObject?
    ensures BackupOutcome(a, bucketEnv, live) == Status(204) <==>
              bucketEnv.Some? && (a.operation == "Delete" || a.name !in live)
    ensures BackupSent(a, bucketEnv, live).Some? ==>
              bucketEnv.Some? && BackupSent(a, bucketEnv, live).value.bucket == bucketEnv.value
  {
  }

  /**
    `backup(action)`: read the bucket name from the environment (exit without
    it), then delete the object for a delete, or read the live value and put it
    with its tags; a parameter that is already gone is skipped with 204.
   */
  method Backup(a: Action, bucketEnv: Option<string>, live: map<string, string>, s3: S3Client) returns (out: Outcome)
    requires bucketEnv.Some? ==> bucketEnv.value in s3.state.buckets
    modifies s3
    ensures out == BackupOutcome(a, bucketEnv, live)
    ensures s3.state == AfterSent(old(s3.state), s3.clock, BackupSent(a, bucketEnv, live))
  {
    if bucketEnv.None? {
      return Exit;
    }
    var bucket := bucketEnv.value;
    var req: S3Request;
    if a.operation == "Delete" {
      req := DeleteObject(bucket, a.name);
    } else {
      if a.name !in live {
        return Status(204);
      }
      var value := live[a.name];
      var tags := map[TimeTag := IntToString(a.time), TypeTag := a.paramType];
      if a.description.Some? {
        tags := tags[DescriptionTag := a.description.value];
      }
      req := PutObject(bucket, a.name, tags, value);
    }
    var code := s3.Send(req);
    out := Status(code);
  }

  // ---- process_event ----

  /** The operations `process_event` backs up; anything else is skipped with 205. */
  predicate Recognised(operation: string)
  {
    operation in ["Create", "Update", "Delete"]
  }

  /**
    The effect of handling `msgs` in order from state `s`, where `res` is the
    result so far: the bucket afterwards and the result of the last record, or
    the exit of the first backup that finds no bucket name.
   */
  function RunFrom(s: S3State, clock: nat -> int, msgs: seq<Message>, bucketEnv: Option<string>,
                   live: map<string, string>, res: Outcome): (S3State, Outcome)
    requires bucketEnv.Some? ==> bucketEnv.value in s.buckets
    decreases |msgs|
  {
    if msgs == [] then (s, res)
    else
      var a := ProcessMessage(msgs[0]);
      if !Recognised(a.operation) then RunFrom(s, clock, msgs[1..], bucketEnv, live, Status(205))
      else
        var s' := AfterSent(s, clock, BackupSent(a, bucketEnv, live));
        var out := BackupOutcome(a, bucketEnv, live);
        if out.Exit? then (s', Exit) else RunFrom(s', clock, msgs[1..], bucketEnv, live, out)
  }

  /** The result of one record on its own. */
  function RecordResult(m: Message, bucketEnv: Option<string>, live: map<string, string>): Outcome
  {
    var a := ProcessMessage(m);
    if Recognised(a.operation) then BackupOutcome(a, bucketEnv, live) else Status(205)
  }

  /**
    `process_event(event)`: each record's body is processed and, for a create,
    update or delete, backed up; other operations give 205. The result is the
    last record's; a missing bucket name ends the run at the first backup.
   */
  method ProcessEvent(msgs: seq<Message>, bucketEnv: Option<string>, live: map<string, string>, s3: S3Client)
    returns (res: Outcome)
    requires |msgs| > 0
    requires bucketEnv.Some? ==> bucketEnv.value in s3.state.buckets
    modifies s3
    ensures (s3.state, res) == RunFrom(old(s3.state), s3.clock, msgs, bucketEnv, live, Status(205))
  {
    res := Status(205);
    var i := 0;
    while i < |msgs|
      invariant 0 <= i <= |msgs|
      invariant bucketEnv.Some? ==> s3.state.buckets.Keys == old(s3.state.buckets).Keys
      invariant RunFrom(old(s3.state), s3.clock, msgs, bucketEnv, live, Status(205))
                == RunFrom(s3.state, s3.clock, msgs[i..], bucketEnv, live, res)
      decreases |msgs| - i
    {
      var a := ProcessMessage(msgs[i]);
      assert msgs[i..][0] == msgs[i] && msgs[i..][1..] == msgs[i + 1..];
      if Recognised(a.operation) {
        res := Backup(a, bucketEnv, live, s3);
        if res.Exit? {
          return;
        }
      } else {
        res := Status(205);
      }
      i := i + 1;
    }
  }

  // ---- Properties of process_event ----

  /**
    With a bucket name configured, the run returns the result of the last
    record, whatever came before it.
   */
  lemma {:induction false} ResultIsLast(s: S3State, clock: nat -> int, msgs: seq<Message>, bucket: string,
                                        live: map<string, string>, res: Outcome)
    requires bucket in s.buckets && |msgs| > 0
    ensures RunFrom(s, clock, msgs, Some(bucket), live, res).1 == RecordResult(msgs[|msgs| - 1], Some(bucket), live)
    decreases |msgs|
  {
    var a := ProcessMessage(msgs[0]);
    if |msgs| > 1 {
      var s' := if Recognised(a.operation) then AfterSent(s, clock, BackupSent(a, Some(bucket), live)) else s;
      var out := if Recognised(a.operation) then BackupOutcome(a, Some(bucket), live) else Status(205);
      assert s'.buckets.Keys == s.buckets.Keys;
      assert msgs[1..][|msgs[1..]| - 1] == msgs[|msgs| - 1];
      ResultIsLast(s', clock, msgs[1..], bucket, live, out);
    }
  }

  /**
    Without a bucket name nothing is written; the run exits at the first
    create, update or delete, and returns 205 when there is none.
   */
  lemma {:induction false} NoBucketWritesNothing(s: S3State, clock: nat -> int, msgs: seq<Message>,
                                                 live: map<string, string>, res: Outcome)
    ensures RunFrom(s, clock, msgs, None, live, res).0 == s
    ensures (exists i | 0 <= i < |msgs| :: Recognised(msgs[i].detail.operation)) ==>
              RunFrom(s, clock, msgs, None, live, res).1 == Exit
    ensures msgs != [] && (forall i | 0 <= i < |msgs| :: !Recognised(msgs[i].detail.operation)) ==>
              RunFrom(s, clock, msgs, None, live, res).1 == Status(205)
    decreases |msgs|
  {
    if msgs != [] {
      NoBucketWritesNothing(s, clock, msgs[1..], live, Status(205));
      if !Recognised(msgs[0].detail.operation) {
        assert forall i | 1 <= i < |msgs| :: msgs[i] == msgs[1..][i - 1];
      }
    }
  }

  /** Every write of a run is recorded as a new history entry: the write counter grows by at most one per record. */
  lemma {:induction false} WritesAtMostOnePerRecord(s: S3State, clock: nat -> int, msgs: seq<Message>,
                                                    bucketEnv: Option<string>, live: map<string, string>, res: Outcome)
    requires bucketEnv.Some? ==> bucketEnv.value in s.buckets
    ensures s.written <= RunFrom(s, clock, msgs, bucketEnv, live, res).0.written <= s.written + |msgs|
    ensures RunFrom(s, clock, msgs, bucketEnv, live, res).0.buckets.Keys == s.buckets.Keys
    decreases |msgs|
  {
    if msgs != [] {
      var a := ProcessMessage(msgs[0]);
      if !Recognised(a.operation) {
        WritesAtMostOnePerRecord(s, clock, msgs[1..], bucketEnv, live, Status(205));
      } else {
        var s' := AfterSent(s, clock, BackupSent(a, bucketEnv, live));
        var out := BackupOutcome(a, bucketEnv, live);
        if !out.Exit? {
          WritesAtMostOnePerRecord(s', clock, msgs[1..], bucketEnv, live, out);
        }
      }
    }
  }

  /** The number of records that make `backup` send a request to `bucket`. */
  function SentCount(msgs: seq<Message>, bucket: string, live: map<string, string>): nat
    decreases |msgs|
  {
    if msgs == [] then 0
    else
      var a := ProcessMessage(msgs[0]);
      (if Recognised(a.operation) && Planned(a, bucket, live).Some? then 1 else 0)
        + SentCount(msgs[1..], bucket, live)
  }

  /**
    With a bucket configured, a run makes exactly one write for each create,
    update or delete whose backup sends a request, and none for any other
    record.
   */
  lemma {:induction false} WritesExactlySent(s: S3State, clock: nat -> int, msgs: seq<Message>, bucket: string,
                                             live: map<string, string>, res: Outcome)
    requires bucket in s.buckets
    ensures RunFrom(s, clock, msgs, Some(bucket), live, res).0.written == s.written + SentCount(msgs, bucket, live)
    decreases |msgs|
  {
    if msgs != [] {
      var a := ProcessMessage(msgs[0]);
      if !Recognised(a.operation) {
        WritesExactlySent(s, clock, msgs[1..], bucket, live, Status(205));
      } else {
        var s' := AfterSent(s, clock, BackupSent(a, Some(bucket), live));
        assert s'.buckets.Keys == s.buckets.Keys;
        WritesExactlySent(s', clock, msgs[1..], bucket, live, BackupOutcome(a, Some(bucket), live));
      }
    }
  }

  /**
    Records whose operation is not a create, update or delete are skipped: a run
    of only such records leaves the bucket as it was and returns 205.
   */
  lemma {:induction false} SkippedRecordsWriteNothing(s: S3State, clock: nat -> int, msgs: seq<Message>,
                                                      bucketEnv: Option<string>, live: map<string, string>, res: Outcome)
    requires bucketEnv.Some? ==> bucketEnv.value in s.buckets
    requires forall i | 0 <= i < |msgs| :: !Recognised(msgs[i].detail.operation)
    ensures RunFrom(s, clock, msgs, bucketEnv, live, res).0 == s
    ensures msgs != [] ==> RunFrom(s, clock, msgs, bucketEnv, live, res).1 == Status(205)
    decreases |msgs|
  {
    if msgs != [] {
      assert forall i | 0 <= i < |msgs[1..]| :: msgs[1..][i] == msgs[i + 1];
      SkippedRecordsWriteNothing(s, clock, msgs[1..], bucketEnv, live, Status(205));
    }
  }

  // ---- What the bucket holds afterwards ----

  /** A store in which every revision carries readable time and type tags. */
  predicate AllWellTagged(s: S3State)
  {
    forall b | b in s.buckets :: WellTaggedStore(s.buckets[b])
  }

  /** Recording one more well-tagged entry keeps a store well tagged. */
  lemma RecordKeepsWellTagged(store: Store, key: string, e: Entry)
    requires WellTaggedStore(store) && WellTagged(e)
    ensures WellTaggedStore(Record(store, key, e))
  {
    var r := Record(store, key, e);
    forall k, j | k in r && 0 <= j < |r[k]| ensures WellTagged(r[k][j]) {
      if k == key && j > 0 {
        assert r[k][j] == r[key][1..][j - 1];
      }
    }
  }

  /**
    Every revision the backup function writes carries readable tags, so a bucket
    written only by it can be read by the restore side.
   */
  lemma {:induction false} RunKeepsWellTagged(s: S3State, clock: nat -> int, msgs: seq<Message>,
                                              bucketEnv: Option<string>, live: map<string, string>, res: Outcome)
    requires bucketEnv.Some? ==> bucketEnv.value in s.buckets
    requires AllWellTagged(s)
    ensures AllWellTagged(RunFrom(s, clock, msgs, bucketEnv, live, res).0)
    decreases |msgs|
  {
    if msgs != [] {
      var a := ProcessMessage(msgs[0]);
      if !Recognised(a.operation) {
        RunKeepsWellTagged(s, clock, msgs[1..], bucketEnv, live, Status(205));
      } else {
        var sent := BackupSent(a, bucketEnv, live);
        var s' := AfterSent(s, clock, sent);
        if sent.Some? {
          var req := sent.value;
          if req.PutObject? {
            TagsRoundTrip(a);
          }
          RecordKeepsWellTagged(s.buckets[req.bucket], req.key, Stamped(req, VersionId(s.written), clock(s.written)));
        }
        assert AllWellTagged(s');
        var out := BackupOutcome(a, bucketEnv, live);
        if !out.Exit? {
          RunKeepsWellTagged(s', clock, msgs[1..], bucketEnv, live, out);
        }
      }
    }
  }
}
