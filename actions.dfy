/**
  Preview and restore of SSM parameters to their state at a point in time
  (ssmbak/restore/actions.py). A `Path` names one key or a prefix, a checktime
  and a recurse flag, and keeps a per-object cache of the version found for
  each key. Reads of the backup bucket go through the History oracle; writes to
  the live parameter store are recorded as calls on an `SsmClient`.
 */
module Actions {
  import opened Wrappers
  import opened Tags
  import opened History
  import opened Order

  // ---- Names ----

  /** `name.rstrip("/")`: every trailing slash removed, nothing else. */
  function StripSlashes(s: string): (r: string)
    ensures |r| <= |s| && r == s[..|r|]
    ensures r == [] || r[|r| - 1] != '/'
    ensures forall i | |r| <= i < |s| :: s[i] == '/'
  {
    if s != [] && s[|s| - 1] == '/' then StripSlashes(s[..|s| - 1]) else s
  }

  /** "p/" and "p" name the same path (tests/test_path.py:85-92). */
  lemma TrailingSlashIgnored(s: string)
    ensures StripSlashes(s + "/") == StripSlashes(s)
  {
    assert (s + "/")[..|s|] == s;
  }

  /** A stripped name is left alone by a second strip. */
  lemma StripIdempotent(s: string)
    ensures StripSlashes(StripSlashes(s)) == StripSlashes(s)
  {
  }

  // ---- Preview records ----

  /**
    The summary of one key at checktime. The source builds a dict whose keys
    tell the cases apart: only `Name` (no version before checktime), `Name`,
    `Deleted` = True and `Modified` (a delete marker), or `Name`, `Value`,
    `Type`, `Modified` and optionally `Description` (a backed-up value).
   */
  datatype Preview =
    | Missing(name: string)
    | Gone(name: string, modified: int)
    | Restored(name: string, value: string, paramType: string, modified: int, description: Option<string>)

  /** A version `preview_key` can summarise without raising: a content version has its body and readable tags. */
  predicate Ready(v: Option<Version>)
  {
    v.Some? && v.value.Content? ==> v.value.body.Some? && TagsReadable(v.value.tagset)
  }

  /** The case analysis of `preview_key` on the version `get_latest_version` returned. */
  function PreviewOf(name: string, v: Option<Version>): (r: Preview)
    requires Ready(v)
    ensures r.name == name
    ensures r.Missing? <==> v.None?
    ensures r.Gone? <==> v.Some? && v.value.Deleted?
    ensures r.Gone? ==> r.modified == v.value.lastModified
    ensures r.Restored? ==>
              && r.value == v.value.body.value
              && r.paramType == v.value.tagset[TypeTag]
              && ParseInt(v.value.tagset[TimeTag]) == Some(r.modified)
              && (r.description.Some? <==> DescriptionTag in v.value.tagset)
              && (r.description.Some? ==> r.description.value == v.value.tagset[DescriptionTag])
  {
    match v
    case None => Missing(name)
    case Some(Deleted(_, lm)) => Gone(name, lm)
    case Some(Content(_, _, tags, body)) =>
      Restored(name, body.value, tags[TypeTag], ParseInt(tags[TimeTag]).value,
               if DescriptionTag in tags then Some(tags[DescriptionTag]) else None)
  }

  function NamesOf(ps: seq<Preview>): (names: seq<string>)
    ensures |names| == |ps| && forall i | 0 <= i < |ps| :: names[i] == ps[i].name
  {
    seq(|ps|, i requires 0 <= i < |ps| => ps[i].name)
  }

  // ---- The version cache ----

  /** Every cached content version has readable tags and a body that is there or can be fetched. */
  predicate Consistent(store: Store, cache: map<string, Version>)
  {
    forall k | k in cache && cache[k].Content? ::
      TagsReadable(cache[k].tagset) && (cache[k].body.Some? || FetchBody(store, k, cache[k].versionId).Some?)
  }

  /** `get_latest_version`'s lazy body fetch: only a content version without a body is touched. */
  function Fill(store: Store, key: string, v: Version): Version
  {
    if v.Content? && v.body.None? then v.(body := FetchBody(store, key, v.versionId)) else v
  }

  /** What `get_versions` answers: the cache when it is non-empty, a fresh listing otherwise. */
  function Working(store: Store, name: string, checktime: int, recurse: bool, cache: map<string, Version>): map<string, Version>
  {
    if cache != map[] then cache else ListVersions(store, name, checktime, recurse)
  }

  /** `_get_versions(key, checktime)[key]`, or nothing when the lookup does not report the key. */
  function Lookup(store: Store, checktime: int, key: string): Option<Version>
  {
    var all := ListVersions(store, key, checktime, false);
    if key in all then Some(all[key]) else None
  }

  /** What `get_latest_version(key)` returns for a given cache. */
  function Resolve(store: Store, checktime: int, cache: map<string, Version>, key: string): Option<Version>
  {
    var found := if key in cache then Some(cache[key]) else Lookup(store, checktime, key);
    if found.Some? then Some(Fill(store, key, found.value)) else None
  }

  /** The cache after `get_latest_version(key)`: the key holds what was returned, unless nothing was found. */
  function CacheAfter(store: Store, checktime: int, cache: map<string, Version>, key: string): map<string, Version>
  {
    var v := Resolve(store, checktime, cache, key);
    if v.Some? then cache[key := v.value] else cache
  }

  /** The cache once every version in it has had its body fetched. */
  function FillAll(store: Store, cache: map<string, Version>): map<string, Version>
  {
    map k | k in cache :: Fill(store, k, cache[k])
  }

  /** The cache once the versions of the keys in `done` have had their bodies fetched. */
  function FillSome(store: Store, cache: map<string, Version>, done: seq<string>): map<string, Version>
  {
    map k | k in cache :: if k in done then Fill(store, k, cache[k]) else cache[k]
  }

  lemma FillSomeStep(store: Store, cache: map<string, Version>, done: seq<string>, key: string)
    requires key in cache && key !in done
    ensures key in FillSome(store, cache, done) && FillSome(store, cache, done)[key] == cache[key]
    ensures FillSome(store, cache, done + [key]) == FillSome(store, cache, done)[key := Fill(store, key, cache[key])]
  {
  }

  lemma FillSomeDone(store: Store, cache: map<string, Version>, done: seq<string>)
    requires Elems(done) == cache.Keys
    ensures FillSome(store, cache, done) == FillAll(store, cache)
  {
    forall k | k in cache ensures k in done {
      assert k in Elems(done);
    }
  }

  /**
    `ps` is what `preview` returns for the working cache: one record per cached
    key, in ascending key order, each the summary of that key's version.
   */
  ghost predicate Summarises(store: Store, cache: map<string, Version>, ps: seq<Preview>)
  {
    && Consistent(store, cache)
    && StrictlySorted(NamesOf(ps))
    && Elems(NamesOf(ps)) == cache.Keys
    && forall i | 0 <= i < |ps| ::
         ps[i].name in cache && ps[i] == PreviewOf(ps[i].name, Some(Fill(store, ps[i].name, cache[ps[i].name])))
  }

  /** The records built key by key in `names` order make up the summary. */
  lemma PreviewsSummarise(store: Store, cache: map<string, Version>, names: seq<string>, ps: seq<Preview>)
    requires Consistent(store, cache)
    requires Elems(names) == cache.Keys && StrictlySorted(names)
    requires |ps| == |names|
    requires forall j | 0 <= j < |names| ::
               names[j] in cache && ps[j] == PreviewOf(names[j], Some(Fill(store, names[j], cache[names[j]])))
    ensures Summarises(store, cache, ps)
  {
    assert NamesOf(ps) == names;
  }

  // ---- Properties of get_latest_version ----

  /** The listing of a well-tagged store only produces versions the cache may hold. */
  lemma ListingConsistent(store: Store, name: string, checktime: int, recurse: bool)
    requires WellTaggedStore(store)
    ensures Consistent(store, ListVersions(store, name, checktime, recurse))
  {
    var listed := ListVersions(store, name, checktime, recurse);
    forall k | k in listed && listed[k].Content?
      ensures TagsReadable(listed[k].tagset) && FetchBody(store, k, listed[k].versionId).Some?
    {
      ListedVersionsAreFetchable(store, name, checktime, recurse, k);
      var i := LatestIndex(store[k], checktime).value;
      assert WellTagged(store[k][i]);
    }
  }

  /** After `get_latest_version` the answer can be summarised and the cache stays consistent. */
  lemma ResolveReady(store: Store, checktime: int, cache: map<string, Version>, key: string)
    requires WellTaggedStore(store) && Consistent(store, cache)
    ensures Ready(Resolve(store, checktime, cache, key))
    ensures Consistent(store, CacheAfter(store, checktime, cache, key))
  {
    if key !in cache {
      ListingConsistent(store, key, checktime, false);
      assert Lookup(store, checktime, key).Some? ==> key in ListVersions(store, key, checktime, false);
    }
  }

  /**
    A cache hit is answered without the backend: the result is the same whatever
    the bucket holds and whatever the checktime, as long as the cached version
    needs no body (actions.py:262-263, 272).
   */
  lemma CacheHitIgnoresBackend(s1: Store, s2: Store, c1: int, c2: int, cache: map<string, Version>, key: string)
    requires key in cache && (cache[key].Deleted? || cache[key].body.Some?)
    ensures Resolve(s1, c1, cache, key) == Resolve(s2, c2, cache, key) == Some(cache[key])
    ensures CacheAfter(s1, c1, cache, key) == cache
  {
  }

  /**
    On a miss the key enters the cache only when the lookup found it, and then
    with its body fetched; otherwise the answer is empty and the cache is
    unchanged (actions.py:264-270, 274-276).
   */
  lemma MissInsertsOnlyFound(store: Store, checktime: int, cache: map<string, Version>, key: string)
    requires key !in cache
    ensures var found := ListVersions(store, key, checktime, false);
            if key in found then
              && Resolve(store, checktime, cache, key) == Some(Fill(store, key, found[key]))
              && CacheAfter(store, checktime, cache, key) == cache[key := Fill(store, key, found[key])]
            else
              && Resolve(store, checktime, cache, key) == None
              && CacheAfter(store, checktime, cache, key) == cache
  {
  }

  /** A checktime before a key's whole history gives an empty answer (tests/test_path.py:131-133). */
  lemma TooEarlyIsEmpty(store: Store, checktime: int, cache: map<string, Version>, key: string)
    requires key !in cache && key in store
    requires forall j | 0 <= j < |store[key]| :: checktime < EventTime(store[key][j])
    ensures Resolve(store, checktime, cache, key) == None
    ensures CacheAfter(store, checktime, cache, key) == cache
  {
    BeforeHistoryFindsNothing(store[key], checktime);
  }

  /**
    The body is fetched only for a content version that lacks one, and is then
    what the bucket holds for that version id (actions.py:272-273).
   */
  lemma BodyFetchedOnlyWhenMissing(store: Store, key: string, v: Version)
    ensures v.Deleted? || v.body.Some? ==> Fill(store, key, v) == v
    ensures v.Content? && v.body.None? ==>
              Fill(store, key, v) == v.(body := FetchBody(store, key, v.versionId))
  {
  }

  // ---- Properties of preview and restore ----

  lemma FillIdempotent(store: Store, key: string, v: Version)
    ensures Fill(store, key, Fill(store, key, v)) == Fill(store, key, v)
  {
  }

  /** Two summaries of a cache, before and after its bodies were fetched, are the same list. */
  lemma {:induction false} SummariesAgree(store: Store, cache: map<string, Version>, first: seq<Preview>, second: seq<Preview>)
    requires Summarises(store, cache, first)
    requires Summarises(store, FillAll(store, cache), second)
    ensures first == second
  {
    assert FillAll(store, cache).Keys == cache.Keys;
    SortedUnique(NamesOf(first), NamesOf(second));
    assert |first| == |second|;
    forall i | 0 <= i < |first| ensures first[i] == second[i] {
      var n := first[i].name;
      assert second[i].name == NamesOf(second)[i] == NamesOf(first)[i] == n;
      FillIdempotent(store, n, cache[n]);
    }
  }

  /**
    Calling `preview` again on the same object gives the same list: the second
    call works on the cache the first one left behind (tests/test_path.py:43-50,
    where `restore()`, which returns its own `preview()`, equals the earlier
    `preview()`).
   */
  lemma PreviewRepeats(store: Store, name: string, checktime: int, recurse: bool,
                       cache: map<string, Version>, first: seq<Preview>, second: seq<Preview>)
    requires Summarises(store, Working(store, name, checktime, recurse, cache), first)
    requires Summarises(store, Working(store, name, checktime, recurse,
                                       FillAll(store, Working(store, name, checktime, recurse, cache))), second)
    ensures first == second
  {
    var c1 := Working(store, name, checktime, recurse, cache);
    assert FillAll(store, c1).Keys == c1.Keys;
    if c1 == map[] {
      assert cache == map[];
      assert FillAll(store, c1) == map[];
    }
    SummariesAgree(store, c1, first, second);
  }

  /** The records carrying `Deleted`, in preview order. */
  function Gones(ps: seq<Preview>): (r: seq<Preview>)
    ensures forall p :: p in r <==> p in ps && p.Gone?
  {
    if ps == [] then []
    else (if ps[0].Gone? then [ps[0]] else []) + Gones(ps[1..])
  }

  /** The records without `Deleted`, in preview order: each is restored individually. */
  function Undeleted(ps: seq<Preview>): (r: seq<Preview>)
    ensures forall p :: p in r <==> p in ps && !p.Gone?
  {
    if ps == [] then []
    else (if ps[0].Gone? then [] else [ps[0]]) + Undeleted(ps[1..])
  }

  /** The deletions are an order-preserving filter: splitting the preview list splits them at the same place. */
  lemma {:induction false} GonesKeepOrder(a: seq<Preview>, b: seq<Preview>)
    ensures Gones(a + b) == Gones(a) + Gones(b)
  {
    if a == [] {
      assert a + b == b;
    } else {
      var head := if a[0].Gone? then [a[0]] else [];
      assert Gones(a + b) == head + Gones(a[1..] + b) by {
        assert (a + b)[0] == a[0] && (a + b)[1..] == a[1..] + b;
      }
      GonesKeepOrder(a[1..], b);
    }
  }

  /** The write-backs are an order-preserving filter: splitting the preview list splits them at the same place. */
  lemma {:induction false} UndeletedKeepOrder(a: seq<Preview>, b: seq<Preview>)
    ensures Undeleted(a + b) == Undeleted(a) + Undeleted(b)
  {
    if a == [] {
      assert a + b == b;
    } else {
      var head := if a[0].Gone? then [] else [a[0]];
      assert Undeleted(a + b) == head + Undeleted(a[1..] + b) by {
        assert (a + b)[0] == a[0] && (a + b)[1..] == a[1..] + b;
      }
      UndeletedKeepOrder(a[1..], b);
    }
  }

  /** The names handed to the batched delete. */
  function DeletedNames(ps: seq<Preview>): seq<string>
  {
    NamesOf(Gones(ps))
  }

  /** The two groups of `restore` together hold every preview exactly once (actions.py:194-198). */
  lemma {:induction false} RestorePartitions(ps: seq<Preview>)
    ensures multiset(Gones(ps)) + multiset(Undeleted(ps)) == multiset(ps)
    ensures |Gones(ps)| + |Undeleted(ps)| == |ps|
  {
    if ps != [] {
      RestorePartitions(ps[1..]);
      assert ps == [ps[0]] + ps[1..];
    }
  }

  /**
    With distinct names, as `preview` produces them, no name is both deleted and
    restored.
   */
  lemma RestoreGroupsDisjoint(ps: seq<Preview>)
    requires forall i, j | 0 <= i < j < |ps| :: ps[i].name != ps[j].name
    ensures forall n, p | n in DeletedNames(ps) && p in Undeleted(ps) :: p.name != n
  {
    forall n, p | n in DeletedNames(ps) && p in Undeleted(ps) ensures p.name != n {
      var gs := Gones(ps);
      var k :| 0 <= k < |gs| && NamesOf(gs)[k] == n;
      var g := gs[k];
      assert g in ps && g.Gone? && p in ps && !p.Gone?;
      var i :| 0 <= i < |ps| && ps[i] == g;
      var j :| 0 <= j < |ps| && ps[j] == p;
      assert i != j;
    }
  }

  // ---- The live parameter store ----

  /** A call `restore` makes on the live parameter store. */
  datatype SsmCall =
    | DeleteParameters(names: seq<string>)
    | RestoreParameter(record: Preview)

  function RestoreCalls(ps: seq<Preview>): (r: seq<SsmCall>)
    ensures |r| == |ps| && forall i | 0 <= i < |ps| :: r[i] == RestoreParameter(ps[i])
  {
    seq(|ps|, i requires 0 <= i < |ps| => RestoreParameter(ps[i]))
  }

  /**
    The live parameter store, seen through the calls made on it:
    `_ssm_del_multi` deletes the given names in one batch and
    `_restore_preview` writes one record back.
   */
  class SsmClient {
    var calls: seq<SsmCall>

    constructor ()
      ensures calls == []
    {
      calls := [];
    }

    method DeleteMulti(names: seq<string>)
      modifies this
      ensures calls == old(calls) + [DeleteParameters(names)]
    {
      calls := calls + [DeleteParameters(names)];
    }

    method RestorePreview(p: Preview)
      modifies this
      ensures calls == old(calls) + [RestoreParameter(p)]
    {
      calls := calls + [RestoreParameter(p)];
    }

    /** One `_restore_preview` per summary, in order. */
    method RestoreEach(puts: seq<Preview>)
      modifies this
      ensures calls == old(calls) + RestoreCalls(puts)
    {
      for i := 0 to |puts|
        invariant calls == old(calls) + RestoreCalls(puts[..i])
      {
        RestorePreview(puts[i]);
        assert puts[..i + 1] == puts[..i] + [puts[i]];
      }
      assert puts[..|puts|] == puts;
    }
  }

  // ---- Path ----

  /** A key or a path to restore to its state at `checktime`. */
  class Path {
    const name: string
    const checktime: int
    const recurse: bool
    /** The backup bucket, read through the History oracle. */
    const store: Store
    /** The live parameter store. */
    const ssm: SsmClient
    /** Per-object cache: the version found for each key, starts empty. */
    var versions: map<string, Version>

    ghost predicate Valid()
      reads this
    {
      WellTaggedStore(store) && Consistent(store, versions)
    }

    constructor (name: string, checktime: int, store: Store, ssm: SsmClient, recurse: bool)
      requires WellTaggedStore(store)
      ensures Valid()
      ensures this.name == StripSlashes(name) && this.checktime == checktime && this.recurse == recurse
      ensures this.store == store && this.ssm == ssm
      ensures versions == map[]
    {
      this.name := StripSlashes(name);
      this.checktime := checktime;
      this.recurse := recurse;
      this.store := store;
      this.ssm := ssm;
      versions := map[];
    }

    /** The versions in scope at checktime, from the cache when it is non-empty. */
    method GetVersions() returns (vs: map<string, Version>)
      requires Valid()
      modifies this`versions
      ensures Valid()
      ensures old(versions) != map[] ==> vs == old(versions)
      ensures old(versions) == map[] ==> vs == ListVersions(store, name, checktime, recurse)
      ensures versions == vs
    {
      if versions != map[] {
        vs := versions;
      } else {
        vs := ListVersions(store, name, checktime, recurse);
        ListingConsistent(store, name, checktime, recurse);
        versions := vs;
      }
    }

    /** Each key of the version map once, in ascending order. */
    method GetNames() returns (names: seq<string>)
      requires Valid()
      modifies this`versions
      ensures Valid()
      ensures versions == Working(store, name, checktime, recurse, old(versions))
      ensures Elems(names) == versions.Keys
      ensures StrictlySorted(names)
      ensures forall i, j | 0 <= i < j < |names| :: names[i] != names[j]
    {
      var vs := GetVersions();
      var rest := vs.Keys;
      names := [];
      while rest != {}
        invariant versions == vs && Valid()
        invariant rest <= vs.Keys
        invariant Elems(names) + rest == vs.Keys
        invariant StrictlySorted(names)
        invariant forall i, k | 0 <= i < |names| && k in rest :: Below(names[i], k)
        decreases rest
      {
        var m := Least(rest);
        names := names + [m];
        rest := rest - {m};
      }
      SortedDistinct(names);
    }

    /** The version of `key` at checktime, from the cache or looked up and cached, with its body. */
    method GetLatestVersion(key: string) returns (v: Option<Version>)
      requires Valid()
      modifies this`versions
      ensures Valid()
      ensures v == Resolve(store, checktime, old(versions), key)
      ensures versions == CacheAfter(store, checktime, old(versions), key)
    {
      ghost var cache := versions;
      ResolveReady(store, checktime, cache, key);
      var found: Option<Version>;
      if key in versions {
        found := Some(versions[key]);
      } else {
        found := Lookup(store, checktime, key);
      }
      if found.Some? {
        var w := found.value;
        if w.Content? && w.body.None? {
          w := w.(body := FetchBody(store, key, w.versionId));
        }
        v := Some(w);
        versions := versions[key := w];
      } else {
        v := None;
      }
    }

    /** The summary of `key` at checktime. */
    method PreviewKey(key: string) returns (p: Preview)
      requires Valid()
      modifies this`versions
      ensures Valid()
      ensures versions == CacheAfter(store, checktime, old(versions), key)
      ensures Ready(Resolve(store, checktime, old(versions), key))
      ensures p == PreviewOf(key, Resolve(store, checktime, old(versions), key))
    {
      ResolveReady(store, checktime, versions, key);
      var v := GetLatestVersion(key);
      p := PreviewOf(key, v);
    }

    /** `[self.preview_key(name) for name in names]` over names that are all cached. */
    method PreviewKeys(names: seq<string>) returns (ps: seq<Preview>)
      requires Valid()
      requires Elems(names) == versions.Keys
      requires forall i, j | 0 <= i < j < |names| :: names[i] != names[j]
      modifies this`versions
      ensures Valid()
      ensures versions == FillAll(store, old(versions))
      ensures |ps| == |names|
      ensures forall j | 0 <= j < |names| ::
                names[j] in old(versions) && ps[j] == PreviewOf(names[j], Some(Fill(store, names[j], old(versions)[names[j]])))
    {
      ghost var cache := versions;
      ps := [];
      for i := 0 to |names|
        invariant Valid()
        invariant versions == FillSome(store, cache, names[..i])
        invariant |ps| == i
        invariant forall j | 0 <= j < i ::
                    names[j] in cache && ps[j] == PreviewOf(names[j], Some(Fill(store, names[j], cache[names[j]])))
      {
        var key := names[i];
        assert key in Elems(names);
        assert key !in names[..i];
        FillSomeStep(store, cache, names[..i], key);
        assert names[..i + 1] == names[..i] + [key];
        var p := PreviewKey(key);
        ps := ps + [p];
      }
      assert names[..|names|] == names;
      FillSomeDone(store, cache, names);
    }

    /** What would be restored: one summary per key in scope. */
    method Preview() returns (ps: seq<Preview>)
      requires Valid()
      modifies this`versions
      ensures Valid()
      ensures Summarises(store, Working(store, name, checktime, recurse, old(versions)), ps)
      ensures versions == FillAll(store, Working(store, name, checktime, recurse, old(versions)))
    {
      var names := GetNames();
      ghost var cache := versions;
      ps := PreviewKeys(names);
      PreviewsSummarise(store, cache, names, ps);
    }

    /**
      Restores every key to its state at checktime: one batched delete of the
      names marked deleted, then one write per record without `Deleted`. Returns
      the previews it acted on.
     */
    method Restore() returns (ps: seq<Preview>)
      requires Valid()
      modifies this`versions, ssm
      ensures Valid()
      ensures Summarises(store, Working(store, name, checktime, recurse, old(versions)), ps)
      ensures versions == FillAll(store, Working(store, name, checktime, recurse, old(versions)))
      ensures ssm.calls == old(ssm.calls) + [DeleteParameters(DeletedNames(ps))] + RestoreCalls(Undeleted(ps))
    {
      ps := Preview();
      ssm.DeleteMulti(DeletedNames(ps));
      ssm.RestoreEach(Undeleted(ps));
    }
  }
}
