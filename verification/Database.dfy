/**
 The versioned tree: versions are begun, changed, committed, aborted, collected and read
 (pkg/tree/tree.go, pkg/tree/put.go, pkg/tree/delete.go, pkg/tree/reader.go).
 */
module Database {
  import opened Types
  import opened Merkle
  import opened TreeMap
  import opened Nodes
  import opened NodeStore
  import opened ByteStore
  import opened Contents
  import opened UpdateSteps
  import opened Updater
  import opened Validation
  import opened Reader
  import opened Versions
  import opened TreeState
  import opened TreeSteps
  import opened Recovery
  import L = Ledger

  class VersionedTree {
    const H: Hasher
    const source: NodeSource
    const vm: VersionManager<UpdaterState>
    var rootHashes: map<Version, Hash>
    var latestVer: Version

    /** What the tree stands for. */
    ghost var meaning: Meaning

    ghost function Now(): Image
      reads `rootHashes, `latestVer, source`nodes, source`values, source`roots,
            vm`pending, vm`versions, vm`latestVersion, vm`committedVersion
    {
      Image(source.nodes, source.values, source.roots, vm.pending, vm.versions, vm.latestVersion, vm.committedVersion,
            rootHashes, latestVer)
    }

    ghost predicate Valid()
      reads `meaning, `rootHashes, `latestVer,
            source`store, source`nodes, source`values, source`roots, source`entries,
            vm`pending, vm`versions, vm`latestVersion, vm`committedVersion
    {
      source.Sound() && StateOk(H, Now(), meaning)
    }

    ghost function Ledger(): L.Ledger
      reads `meaning
    {
      meaning.ledger
    }

    lemma ManagerIsOk()
      requires Valid()
      ensures vm.Valid()
    {
      hide L.Wellformed, StoreOk, AllVersions, AllDrafts, IndexOk, RootsOk, ManagerOk, ManagerMatches, NodeSource.Sound;
    }

    lemma TopIsThere()
      requires Valid()
      ensures Ledger().top in Ledger().committed && Ledger().top in meaning.trees && Ledger().latest <= MAX_VERSION
    {
      hide StateOk, NodeSource.Sound;
      TopFacts(H, Now(), meaning);
      TreesFit(H, Now(), meaning, 0);
    }

    /** A new tree: version 0, empty. */
    constructor (H: Hasher)
      ensures Valid() && fresh(source) && fresh(vm) && this.H == H && Ledger() == L.INITIAL && meaning == NEW_MEANING
      ensures vm.policy == KeepCount && vm.minVersionsToKeep == 100
    {
      hide StateOk;
      this.H := H;
      EmptyEncodes();
      source := new NodeSource(map[], map[], map[], map[]);
      vm := new VersionManager();
      rootHashes, latestVer := map[0 := ZERO], 0;
      meaning := NEW_MEANING;
      new;
      NewOk(H);
    }

    /**
     Open a tree over the bytes that an earlier tree has left in storage, at any point of its life.
     `a` and `m` are the earlier tree's fields and their meaning; only the bytes are read.
     */
    constructor Reopen(H: Hasher, store: ByteMap, ghost a: Image, ghost m: Meaning)
      requires StateOk(H, a, m) && Encodes(store, a.nodes, a.values, a.roots)
      ensures Valid() && fresh(source) && fresh(vm) && this.H == H && Newest(a.roots.Keys, Ledger().top)
      ensures L.HashesOk(m.ledger) && 0 in m.ledger.committed && Ledger() == Recovered(m.ledger, Ledger().top)
      ensures Restarted(vm.versions, rootHashes, a.roots)
      ensures vm.policy == KeepCount && vm.minVersionsToKeep == 100
    {
      hide StateOk, Newest, VersionRecords, ManagerOk, Encodes, AllStored, Restarted, L.HashesOk,
        L.Wellformed, HashesMatch, NodeSource.Sound, Recovered, ManagerMatches;
      this.H := H;
      StoredFacts(H, a, m);
      StateFits(H, a, m);
      source := new NodeSource(store, a.nodes, a.values, a.roots);
      var _, roots := ScanRoots(store, a.nodes, a.values, a.roots);
      var versions, top := LoadRootHashes(roots);
      TopIsSmall(roots, top);
      ReopenedManager(roots, top);
      RecordsAre(roots);
      vm := new VersionManager.Restored(versions, top);
      rootHashes, latestVer := if roots == map[] then map[0 := ZERO] else roots, top;
      meaning := RecoveredMeaning(m, top);
      new;
      ReopenOk(H, a, m, top);
      RecoveredTop(m.ledger, top);
    }

    /** Open a version over the newest committed one. */
    method BeginVersion() returns (r: Option<Version>)
      requires Valid()
      modifies `meaning, vm`pending, vm`latestVersion
      ensures Valid() && Ledger() == L.Next(old(Ledger()), L.Begin)
      ensures r == if old(Ledger()).latest < MAX_VERSION then Some(old(Ledger()).latest + 1) else None
      ensures meaning.trees == old(meaning.trees)
      ensures Ledger().top == old(Ledger()).top && (r.None? ==> Ledger() == old(Ledger()))
      ensures r.Some? ==> r.value in Ledger().drafts && r.value in meaning.drafts && Ledger().top in meaning.trees
      ensures r.Some? ==> meaning.drafts[r.value] == meaning.trees[Ledger().top]
    {
      hide StateOk, NodeSource.Sound, ManagerOk;
      ManagerIsOk();
      TopFacts(H, Now(), meaning);
      LatestFacts(H, Now(), meaning);
      if meaning.ledger.latest < MAX_VERSION { BeginOk(H, Now(), meaning); }
      r := vm.Begin(vm.committedVersion);
      if r.Some? { meaning := BeginMeaning(meaning); }
    }

    /** Set a key in a pending version. */
    method PutVersioned(v: Version, key: Key, value: Bytes) returns (ok: bool)
      requires v in Ledger().drafts ==> v in meaning.drafts && Lands(meaning.drafts[v], key, 0)
      requires Valid()
      modifies `meaning, vm`pending, source`entries, source`hits, source`misses
      ensures Ledger() == L.Next(old(Ledger()), L.Put(v, key, value))
      ensures ok <==> L.CanPut(old(Ledger()), v, key, value)
      ensures meaning.trees == old(meaning.trees)
      ensures ok ==>
          v in old(meaning.drafts) &&
            meaning.drafts == old(meaning.drafts)[v := PutOpt(old(meaning.drafts)[v], key, H(value))]
      ensures Valid()
    {
      hide StateOk, NodeSource.Sound, ManagerOk, PendingMatches, Lands, Insert, L.Apply, L.Next;
      L.NextPut(Ledger(), v, key, value);
      ManagerIsOk();
      DraftsFacts(H, Now(), meaning, v);
      if v > MAX_VERSION || key == ZERO_KEY || |value| == 0 || |value| > MAX_VALUE_SIZE { return false; }
      if v !in vm.pending { return false; }
      ghost var a, m := Now(), meaning;
      var p := vm.pending[v];
      var state;
      ghost var shadow;
      state, shadow :=
        PutInDraft(H, source, v, p, key, value, m.ledger.drafts[v], m.drafts[v], m.shadows[v], m.ledger.puts);
      vm.SetPending(v, state, p.operations + 1);
      ghost var t := Some(Insert(m.drafts[v], key, H(value), 0));
      DraftChanged(H, a, m, L.Put(v, key, value), vm.pending[v], t, shadow);
      meaning := ChangedMeaning(m, L.Put(v, key, value), t, shadow);
      return true;
    }

    /** Remove a key in a pending version. */
    method DeleteVersioned(v: Version, key: Key) returns (ok: bool)
      requires Valid()
      modifies `meaning, vm`pending, source`entries, source`hits, source`misses
      ensures Valid() && Ledger() == L.Next(old(Ledger()), L.Delete(v, key))
      ensures ok <==> L.CanDelete(old(Ledger()), v, key)
      ensures meaning.trees == old(meaning.trees)
      ensures ok ==>
          v in old(meaning.drafts) && meaning.drafts == old(meaning.drafts)[v := RemoveOpt(old(meaning.drafts)[v], key)]
      ensures ok && LiftsFirst(old(Ledger()).drafts[v], key) ==>
                v in vm.pending && vm.pending[v].updater.Some? && Lifted(StateOf(vm.pending[v]), v)
    {
      hide StateOk, NodeSource.Sound, ManagerOk, PendingMatches, L.Apply, TwinIn, Lifted, RemoveOpt;
      ManagerIsOk();
      DraftsFacts(H, Now(), meaning, v);
      if v > MAX_VERSION || key == ZERO_KEY { return false; }
      if v !in vm.pending { return false; }
      ghost var a, m := Now(), meaning;
      var p := vm.pending[v];
      var state;
      ghost var shadow;
      ok, state, shadow :=
        DeleteInDraft(H, source, v, p, key, m.ledger.drafts[v], m.drafts[v], m.shadows[v], m.ledger.puts);
      vm.SetPending(v, state, if ok then p.operations + 1 else p.operations);
      if ok {
        ghost var t := RemoveOpt(m.drafts[v], key);
        DraftChanged(H, a, m, L.Delete(v, key), vm.pending[v], t, shadow);
        meaning := ChangedMeaning(m, L.Delete(v, key), t, shadow);
      } else {
        DraftTouched(H, a, m, v, key);
        meaning := m.(ledger := L.Next(m.ledger, L.Delete(v, key)));
      }
    }

    /** The root hash of a version that is indexed. */
    method GetRootHash(v: Version) returns (r: Option<Hash>)
      requires Valid()
      ensures r == if v in rootHashes then Some(rootHashes[v]) else None
      ensures v > 0 ==> (r.Some? <==> v in Ledger().live)
      ensures r.Some? ==> v in Ledger().hashOf && HasHash(H, meaning.trees, Ledger().hashOf[v], r.value)
    {
      hide StateOk, NodeSource.Sound, HasHash;
      IndexedHash(H, Now(), meaning, v);
      if v !in rootHashes { return None; }
      ItHasHash(H, meaning.trees, Ledger().hashOf[v]);
      return Some(rootHashes[v]);
    }

    /**
     Whether a version has the hash of the empty tree.  It tells whether the version that the ledger
     names for the hash is empty; a version committed without operations may read as empty and yet
     not be reported so.
     */
    method IsEmpty(v: Version) returns (r: Option<bool>)
      requires Valid()
      ensures r.Some? <==> v in rootHashes
      ensures r.Some? ==> v in Ledger().hashOf && Ledger().hashOf[v] in Ledger().committed
      ensures r.Some? ==> (r.value <==> Ledger().committed[Ledger().hashOf[v]].contents == map[])
    {
      hide StateOk, NodeSource.Sound, RootHash;
      var hash := GetRootHash(v);
      if hash.None? { return None; }
      ghost var w := Ledger().hashOf[v];
      TreesFit(H, Now(), meaning, v);
      VersionIs(H, Now(), meaning, w);
      TreeIsNotEmpty(H, meaning.trees[w], Ledger().committed[w].contents, Ledger().committed[w].deep);
      RootTellsZero(H, meaning.trees[w]);
      return Some(hash.value == ZERO);
    }

    /** Make a pending version permanent; refused exactly when its batch does not validate. */
    method CommitVersion(v: Version) returns (ok: bool)
      requires Valid()
      modifies this, vm`pending, vm`versions, vm`latestVersion, vm`committedVersion,
        source
      ensures Valid()
      ensures ok <==> old(Committable(H, Now(), meaning, v))
      ensures ok ==> v in old(Ledger()).drafts && Ledger() == L.Next(old(Ledger()), L.Commit(v))
      ensures ok ==> v in Ledger().committed && KeepsContents(old(Ledger()).drafts[v], Ledger().committed[v])
      ensures ok ==> v in rootHashes && rootHashes == old(rootHashes)[v := rootHashes[v]]
      ensures ok ==> v in Ledger().hashOf && HasHash(H, meaning.trees, Ledger().hashOf[v], rootHashes[v])
      ensures ok && !old(Ledger()).drafts[v].touched ==>
                var p := old(Ledger()).drafts[v].parent;
                rootHashes[v] == if p > 0 && p in old(rootHashes) then old(rootHashes)[p] else ZERO
      ensures ok ==>
          source.roots == if old(Ledger()).drafts[v].touched then old(source.roots)[v := rootHashes[v]]
            else old(source.roots)
      ensures ok ==> v in vm.versions && vm.versions[v].parent == old(Ledger()).drafts[v].parent
      ensures !ok ==> meaning == old(meaning) && Now() == old(Now())
    {
      hide StateOk, NodeSource.Sound, PendingMatches, Acceptable, L.Next, StateOf, StringsOf, KeepsContents;
      DraftsFacts(H, Now(), meaning, v);
      if v !in vm.pending { return false; }
      TouchedFacts(H, Now(), meaning, v);
      ghost var l := Ledger();
      if vm.pending[v].updater.None? {
        CommitEmpty(v);
        ok := true;
      } else {
        ok := CommitBatch(v);
      }
      if ok {
        CommitKeepsContents(l, v);
        IndexedHash(H, Now(), meaning, v);
        ItHasHash(H, meaning.trees, Ledger().hashOf[v]);
      }
    }

    /** A version without an updater is committed as metadata only; nothing is stored. */
    method CommitEmpty(v: Version)
      requires Valid() && v in vm.pending && v in Ledger().drafts && v in meaning.drafts && vm.pending[v].updater.None?
      modifies `meaning, `rootHashes, `latestVer, vm`pending, vm`versions, vm`committedVersion,
        source`store, source`nodes, source`values, source`roots
      ensures Valid() && Ledger() == L.Next(old(Ledger()), L.Commit(v))
      ensures v in rootHashes && rootHashes == old(rootHashes)[v := rootHashes[v]] && L.CanSeal(old(Ledger()).drafts[v])
      ensures var p := old(vm.pending)[v].parent;
              rootHashes[v] == if p > 0 && p in old(rootHashes) then old(rootHashes)[p] else ZERO
      ensures source.roots == old(source.roots) && v in vm.versions
      ensures vm.versions[v].parent == old(vm.pending)[v].parent
    {
      hide StateOk, CommitWrites, L.Next, Encodes, AllStored, Cached;
      var parent := vm.pending[v].parent;
      var rootHash: Hash := ZERO;
      if parent > 0 {
        var parentHash := GetRootHash(parent);
        if parentHash.Some? { rootHash := parentHash.value; }
      }
      TouchedFacts(H, Now(), meaning, v);
      NoWrites(H, Now(), meaning, v, rootHash);
      Record(v, rootHash, source.store, Written(source.nodes, source.values, source.roots), None);
    }

    /** Build the batch of a version, and if it validates write it and index the version. */
    method CommitBatch(v: Version) returns (ok: bool)
      requires Valid() && v in vm.pending && v in Ledger().drafts && v in meaning.drafts && vm.pending[v].updater.Some?
      modifies `meaning, `rootHashes, `latestVer, vm`pending, vm`versions, vm`committedVersion,
        source
      ensures Valid() && ok == old(Committable(H, Now(), meaning, v))
      ensures ok ==> Ledger() == L.Next(old(Ledger()), L.Commit(v))
      ensures ok ==> v in rootHashes && rootHashes == old(rootHashes)[v := rootHashes[v]]
      ensures ok ==> L.CanSeal(old(Ledger()).drafts[v])
      ensures ok ==> source.roots == old(source.roots)[v := rootHashes[v]]
      ensures ok ==> v in vm.versions && vm.versions[v].parent == old(vm.pending)[v].parent
      ensures !ok ==> meaning == old(meaning) && Now() == old(Now())
    {
      hide StateOk, Encodes, AllStored, Cached, PendingMatches, Acceptable, RootHash, CommitWrites, ValuesOf,
        StrippedAll, BatchOf,
        L.Next, StateOf;
      DraftsFacts(H, Now(), meaning, v);
      ghost var a, m := Now(), meaning;
      var rootHash, newNodes;
      ok, rootHash, newNodes :=
        BuildBatch(H, source, v, vm.pending[v], m.ledger.drafts[v], m.drafts[v], m.shadows[v], m.ledger.puts);
      if !ok { return; }
      TouchedFacts(H, a, m, v);
      BatchSeals(H, a, m, v, rootHash, newNodes);
      BatchFits(H, a, m, v, rootHash, newNodes);
      var store, newValues :=
        CommitBytes(source.store, newNodes, v, rootHash, source.nodes, source.values, source.roots);
      BatchWrites(H, a, m, v, rootHash, newNodes, newValues);
      ghost var w :=
        Written(source.nodes + StrippedAll(newNodes), source.values + newValues, source.roots[v := rootHash]);
      Record(v, rootHash, store, w, Recorded(m.ledger.drafts[v], m.drafts[v]));
    }

    /** Write the storage batch, then index the version. */
    method Record(v: Version, rootHash: Hash, store: ByteMap, ghost w: Written, ghost t: Option<Tree>)
      requires Valid() && v in vm.pending && v in Ledger().drafts && CommitWrites(H, Now(), meaning, v, rootHash, t, w)
      requires Encodes(store, w.nodes, w.values, w.roots)
      modifies `meaning, `rootHashes, `latestVer, vm`pending, vm`versions, vm`committedVersion,
        source`store, source`nodes, source`values, source`roots
      ensures Valid() && Now() == CommitImage(old(Now()), v, rootHash, w)
      ensures meaning == CommitMeaning(old(meaning), v, t)
    {
      hide StateOk, Encodes, AllStored, Cached, CommitWrites, L.Next, ManagerOk;
      ManagerIsOk();
      ghost var a, m := Now(), meaning;
      CommitOk(H, a, m, v, rootHash, t, w);
      StateFits(H, CommitImage(a, v, rootHash, w), CommitMeaning(m, v, t));
      WritesGrow(H, a, m, v, rootHash, t, w);
      StillCached(source.entries, source.nodes, w.nodes, v);
      source.WriteBatch(store, w.nodes, w.values, w.roots);
      rootHashes, latestVer := rootHashes[v := rootHash], Later(v, latestVer);
      var _ := vm.Commit(v, rootHash);
      meaning := CommitMeaning(m, v, t);
    }

    /** Give up a pending version. */
    method AbortVersion(v: Version) returns (ok: bool)
      requires Valid()
      modifies `meaning, vm`pending, vm`versions
      ensures Valid() && ok == (v in old(Ledger()).drafts) && Ledger() == L.Next(old(Ledger()), L.Abort(v))
      ensures meaning.trees == old(meaning.trees)
    {
      hide StateOk, NodeSource.Sound, ManagerOk, PendingMatches;
      ManagerIsOk();
      DraftsFacts(H, Now(), meaning, v);
      ghost var a, m := Now(), meaning;
      ok := vm.Abort(v);
      if ok {
        AbortOk(H, a, m, v, vm.versions);
        meaning := AbortMeaning(m, v);
      }
    }

    /** Forget old versions; the nodes stay in storage. */
    method CollectVersionGarbage(expired: set<Version>) returns (r: GcResult)
      requires Valid()
      modifies `meaning, `rootHashes, vm`versions
      ensures Valid() && meaning.trees == old(meaning.trees)
      ensures r == SlicePanic <==> old(vm.policy) == KeepTime && |old(Ledger()).live - {0}| < old(vm.minVersionsToKeep)
      ensures Ledger() == if r.Removed? then L.Next(old(Ledger()), L.Collect(Elements(r.versions))) else old(Ledger())
      ensures r.Removed? ==> Elements(r.versions) !! {0, Ledger().top} && match old(vm.policy)
              case KeepCount => CountRetention(old(Ledger()).live - {0}, Elements(r.versions),
                                               old(vm.minVersionsToKeep), Ledger().top)
              case KeepTime => TimeRetention(old(Ledger()).live - {0}, Elements(r.versions),
                                             old(vm.minVersionsToKeep), expired, Ledger().top)
              case KeepAll => Elements(r.versions) == {}
    {
      hide StateOk, NodeSource.Sound, ManagerOk, CountRetention, TimeRetention, Elements, CommittedOf, L.Next;
      ManagerIsOk();
      LatestFacts(H, Now(), meaning);
      LiveFacts(H, Now(), meaning);
      ghost var a, m := Now(), meaning;
      r := vm.CollectGarbage(expired);
      if r.Removed? {
        rootHashes := rootHashes - Elements(r.versions);
        CollectedFacts(m.ledger, Elements(r.versions));
        CollectOk(H, a, m, Elements(r.versions));
        meaning := CollectMeaning(m, Elements(r.versions));
      }
    }

    lemma ReadableVersion(v: Version)
      requires Valid() && v in rootHashes
      ensures v in Ledger().live && v in Ledger().committed && v in meaning.trees
      ensures Readable(H, source, v, meaning.trees[v])
      ensures StandsFor(H, meaning.trees[v], Ledger().committed[v].contents, Ledger().committed[v].deep)
    {
      hide NodeSource.Sound, L.Wellformed, AllDrafts, RootsOk, ManagerOk, ManagerMatches, RepOpt, ValuesHashed;
      TreesFit(H, Now(), meaning, v);
    }

    /** Read a key in a version that is still indexed. */
    method Get(v: Version, key: Key) returns (r: ReadResult)
      requires Valid()
      modifies source`entries, source`hits, source`misses
      ensures Valid()
      ensures r == Failed <==> v > MAX_VERSION || key == ZERO_KEY || v !in rootHashes
      ensures r != Failed ==> v in Ledger().committed && (r.Found? <==> key in Ledger().committed[v].contents)
      ensures r.Found? && CollisionFree(H, Ledger().puts) ==> r.value == Ledger().committed[v].contents[key]
    {
      hide StateOk, NodeSource.Sound, StandsFor, RepOpt, ValuesHashed, CollisionFree, RootHash;
      if v > MAX_VERSION || key == ZERO_KEY { return Failed; }
      if v !in rootHashes { return Failed; }
      ReadableVersion(v);
      ghost var t, e := meaning.trees[v], Ledger().committed[v];
      LookupTells(H, t, e.contents, e.deep, key);
      if rootHashes[v] == ZERO {
        ZeroRootIsEmpty(H, Now(), meaning, v);
        return Absent;
      }
      r := ReaderGet(H, source, v, key, t);
      if r.Found? && CollisionFree(H, Ledger().puts) {
        ValueIsPut(H, Now(), meaning, v, key, H(e.contents[key]));
      }
    }

    /** Set one key in a version of its own. */
    method Put(key: Key, value: Bytes) returns (r: Option<Version>)
      requires Ledger().top in meaning.trees ==> Lands(meaning.trees[Ledger().top], key, 0)
      requires Valid()
      modifies this, vm`pending, vm`versions, vm`latestVersion, vm`committedVersion,
        source
      ensures r.Some? ==> r.value == L.NextNumber(old(Ledger()))
      ensures L.Outcome(old(Ledger()), Ledger(), L.Put(L.NextNumber(old(Ledger())), key, value), r.Some?)
      ensures var l, s := old(Ledger()), L.Put(L.NextNumber(old(Ledger())), key, value);
              L.TopDeep(l) && CollisionFree(H, StringsOf(H, {L.Made(l, s)})) ==> (r.Some? <==> L.Possible(l, s))
      ensures Valid()
    {
      hide VersionedTree.Valid, VersionedTree.Now, Lands, Insert, Committable, L.Next, StringsOf, CollisionFree,
        Lifted, StateOf;
      TopIsThere();
      ghost var l, s := Ledger(), L.Put(L.NextNumber(Ledger()), key, value);
      if key == ZERO_KEY || |value| == 0 || |value| > MAX_VALUE_SIZE { return None; }
      var v := BeginVersion();
      if v.None? { return None; }
      L.SingleDraft(l, s);
      var ok := PutVersioned(v.value, key, value);
      ok := CommitAfter(v.value);
      if !ok {
        var _ := AbortVersion(v.value);
        return None;
      }
      return v;
    }

    /**
     Commit; a deep version with operations can only be refused because two of the strings hashed
     for its maps collide, and one without only if a delete was refused over an empty parent.
     */
    method CommitAfter(v: Version) returns (ok: bool)
      requires Valid()
      modifies this, vm`pending, vm`versions, vm`latestVersion, vm`committedVersion,
        source
      ensures Valid()
      ensures ok ==> v in old(Ledger()).drafts && Ledger() == L.Next(old(Ledger()), L.Commit(v))
      ensures !ok ==> meaning == old(meaning)
      ensures v in old(Ledger()).drafts && Sure(H, old(Ledger()).drafts[v]) ==> ok
      ensures v in old(vm.pending) && old(vm.pending)[v].updater.Some? && Lifted(StateOf(old(vm.pending)[v]), v) ==> !ok
    {
      hide StateOk, NodeSource.Sound, Lands, Committable, L.Next, StringsOf, CollisionFree, PendingMatches, Lifted;
      ghost var a, m := Now(), meaning;
      ok := CommitVersion(v);
      DraftsFacts(H, a, m, v);
      if v in m.ledger.drafts && Sure(H, m.ledger.drafts[v]) {
        if m.ledger.drafts[v].ops > 0 { DeepIsCommittable(H, a, m, v); } else { EmptyIsCommittable(H, a, m, v); }
      }
      if v in a.pending && a.pending[v].updater.Some? && Lifted(StateOf(a.pending[v]), v) {
        LiftedIsRefused(H, a, m, v);
      }
    }

    /** Remove one key in a version of its own; refused for a key with a twin, because a leaf is lifted. */
    method Delete(key: Key) returns (r: Option<Version>)
      requires Valid()
      modifies this, vm`pending, vm`versions, vm`latestVersion, vm`committedVersion,
        source
      ensures Valid() && (r.Some? ==> r.value == L.NextNumber(old(Ledger())))
      ensures L.Outcome(old(Ledger()), Ledger(), L.Delete(L.NextNumber(old(Ledger())), key), r.Some?)
      ensures var l, s := old(Ledger()), L.Delete(L.NextNumber(old(Ledger())), key);
              && (L.TopDeep(l) && L.Lifts(l, s) ==> r.None?)
              && (L.TopDeep(l) && CollisionFree(H, StringsOf(H, {L.Made(l, s)})) ==>
                    (r.Some? <==> L.Possible(l, s) && !L.Lifts(l, s)))
    {
      hide VersionedTree.Valid, VersionedTree.Now, RemoveOpt, Committable, L.Next, StringsOf, CollisionFree, TwinIn,
        Lifted, StateOf;
      TopIsThere();
      ghost var l, s := Ledger(), L.Delete(L.NextNumber(Ledger()), key);
      var v := BeginVersion();
      if v.None? { return None; }
      L.SingleDraft(l, s);
      var ok := DeleteVersioned(v.value, key);
      if ok { ok := CommitAfter(v.value); }
      if !ok {
        var _ := AbortVersion(v.value);
        return None;
      }
      return v;
    }
  }

  /** A version with the zero root hash has nothing in it. */
  lemma ZeroRootIsEmpty(H: Hasher, a: Image, m: Meaning, v: Version)
    requires StateOk(H, a, m) && v in a.rootHashes && a.rootHashes[v] == ZERO
    ensures v in m.ledger.committed && m.ledger.committed[v].contents == map[]
  {
    hide StateOk, RepOpt, Shows, PlacedOpt, DeepOpt, RootHash;
    TreesFit(H, a, m, v);
    WellformedOf(H, a, m);
    IndexedHash(H, a, m, v);
    LiveIndex(H, a, m);
    VersionIs(H, a, m, v);
    var e, t := m.ledger.committed[v], m.trees[v];
    ShowsEmpty(H, t, e.contents);
    if e.ops > 0 {
      L.OwnHash(m.ledger, v);
      RootTellsZero(H, t);
    } else {
      EmptyTrees(H, a, m, v);
    }
  }

  lemma RootTellsZero(H: Hasher, t: Option<Tree>)
    ensures RootHash(H, t) == ZERO <==> t.None?
  {
  }

  lemma LiveIndex(H: Hasher, a: Image, m: Meaning)
    requires StateOk(H, a, m)
    ensures a.rootHashes.Keys <= m.ledger.live
  {
    hide StoreOk, AllVersions, AllDrafts, RootsOk, ManagerOk, ManagerMatches, L.Wellformed, HashesMatch;
  }

  lemma VersionIs(H: Hasher, a: Image, m: Meaning, v: Version)
    requires StateOk(H, a, m) && v in m.ledger.committed && v in m.trees
    ensures StandsFor(H, m.trees[v], m.ledger.committed[v].contents, m.ledger.committed[v].deep)
  {
    hide StoreOk, AllDrafts, RootsOk, IndexOk, ManagerOk, ManagerMatches, L.Wellformed, RepOpt, StandsFor;
  }

  /** A stored value with the hash of a version's value is that value. */
  lemma ValueIsPut(H: Hasher, a: Image, m: Meaning, v: Version, key: Key, h: Hash)
    requires StateOk(H, a, m) && v in m.ledger.committed && key in m.ledger.committed[v].contents
    requires h == H(m.ledger.committed[v].contents[key])
    requires h in a.values && CollisionFree(H, m.ledger.puts)
    ensures a.values[h] == m.ledger.committed[v].contents[key]
  {
    hide AllVersions, AllDrafts, IndexOk, RootsOk, ManagerOk, ManagerMatches, L.NumbersOk, L.ParentsOk;
  }

  /** Read the stored root hashes, in any order: the records of their versions and the newest of them. */
  method LoadRootHashes(roots: map<Version, Hash>) returns (versions: VersionMap, top: Version)
    ensures versions == VersionRecords(roots) && Newest(roots.Keys, top)
  {
    versions, top := map[0 := VersionInfo(ZERO, 0, Committed)], 0;
    var todo := roots.Keys;
    while todo != {}
      invariant todo <= roots.Keys && versions == VersionRecords(roots - todo) && Newest(roots.Keys - todo, top)
    {
      var v :| v in todo;
      if v > top { top := v; }
      versions := versions[v := VersionInfo(roots[v], if v == 0 then 0 else v - 1, Committed)];
      assert roots.Keys - (todo - {v}) == roots.Keys - todo + {v};
      todo := todo - {v};
    }
    assert roots - todo == roots;
  }

  lemma CollectedFacts(l: L.Ledger, gone: set<Version>)
    ensures L.Next(l, L.Collect(gone)).top == l.top && Elements([]) == {}
  {
  }

  lemma LiveFacts(H: Hasher, a: Image, m: Meaning)
    requires StateOk(H, a, m)
    ensures CommittedOf(a.versions) == m.ledger.live - {0}
  {
    hide StoreOk, AllVersions, AllDrafts, IndexOk, RootsOk, ManagerOk, L.ValuesOk, L.ParentsOk, L.HashesOk;
  }

  /** Nothing that is cached is overwritten. */
  lemma StillCached(entries: NodeMap, a: NodeMap, b: NodeMap, v: Version)
    requires Cached(entries, a) && Grows(a, b, v)
    ensures Cached(entries, b)
  {
  }

  lemma WritesGrow(H: Hasher, a: Image, m: Meaning, v: Version, h: Hash, t: Option<Tree>, w: Written)
    requires v in m.ledger.drafts && CommitWrites(H, a, m, v, h, t, w)
    ensures Grows(a.nodes, w.nodes, v)
  {
    hide VersionOk, StoredNode, ValuesHashed, RootHash, L.Sealed, Grows;
  }

  /** Deleting the key would be the draft's first operation, and would lift a leaf of its parent. */
  ghost predicate LiftsFirst(d: L.Draft, key: Key) {
    d.deep && d.ops == 0 && TwinIn(d.contents.Keys, key)
  }

  /**
   The draft is sure to be committed: it has an operation, all leaves are at depth 64, and no two of
   the strings hashed for the maps it has been collide.
   */
  ghost predicate Sure(H: Hasher, d: L.Draft) {
    L.CanSeal(d) && (d.ops > 0 ==> d.deep && CollisionFree(H, StringsOf(H, d.past)))
  }

  /** A commit keeps the draft's map if and only if an operation succeeded or there was nothing to lose. */
  ghost predicate KeepsContents(d: L.Draft, e: L.Entry) {
    e.contents == d.contents <==> d.ops > 0 || d.contents == map[]
  }

  lemma CommitKeepsContents(l: L.Ledger, v: Version)
    requires v in l.drafts && L.CanSeal(l.drafts[v])
    ensures v in L.Next(l, L.Commit(v)).committed && KeepsContents(l.drafts[v], L.Next(l, L.Commit(v)).committed[v])
  {
  }

  lemma LatestFacts(H: Hasher, a: Image, m: Meaning)
    requires StateOk(H, a, m)
    ensures a.latest == m.ledger.latest && a.current == m.ledger.top
  {
    hide L.Wellformed, StoreOk, AllVersions, AllDrafts, IndexOk, RootsOk, ManagerOk, ManagerMatches;
  }

  /** Continue the updater of a pending version with one put. */
  method PutInDraft(H: Hasher, source: NodeSource, v: Version, p: PendingVersion<UpdaterState>, key: Key, value: Bytes,
                    ghost d: L.Draft, ghost t: Option<Tree>, ghost shadow: map<NodeKey, Tree>, ghost puts: set<Bytes>)
    returns (state: UpdaterState, ghost shadow': map<NodeKey, Tree>)
    requires source.Sound() && PendingMatches(H, source.nodes, source.values, v, p, d, t, shadow, puts) && d.parent < v
    requires key != ZERO_KEY && 0 < |value| <= MAX_VALUE_SIZE && Lands(t, key, 0)
    modifies source`entries, source`hits, source`misses
    ensures source.Sound()
    ensures PendingMatches(H, source.nodes, source.values, v, PendingVersion(p.parent, Some(state), p.operations + 1),
                           L.Apply(d, L.Put(v, key, value)), Some(Insert(t, key, H(value), 0)), shadow', puts + {value})
  {
    hide NodeSource.Sound, PendingMatches, PendingOk, RepOpt, Regular, StandsFor, Lands, Insert, L.Apply, Deep,
      Placed, SameOutside,
      Walk, KeptOff, PathKeys, ToPath, Hashed, StringsOf;
    DraftFacts(H, source.nodes, source.values, v, p, d, t, shadow, puts, puts + {value});
    StandingTree(H, t, d.contents, d.deep);
    ghost var past := d.past + {d.contents[key := value]};
    ghost var strings := StringsOf(H, past) + Hashed(H, Insert(t, key, H(value), 0));
    PutStrings(H, t, d, v, key, value);
    if d.deep {
      MoreMaps(H, d.past, past);
      RegularMore(H, StateOf(p).writes, shadow, v, StringsOf(H, d.past), strings);
    }
    var u := new TreeUpdater.Resume(H, source, v, StateOf(p), shadow, puts + {value}, strings);
    var _ := u.Put(key, value, t);
    DraftAfterPut(H, source.nodes, source.values, v, u.writes, u.stale, d, t, u.shadow, puts + {value}, key, value);
    return u.State(), u.shadow;
  }

  /** After a put in a deep draft nothing is hashed but the strings of the draft's maps. */
  lemma PutStrings(H: Hasher, t: Option<Tree>, d: L.Draft, v: Version, key: Key, value: Bytes)
    requires StandsFor(H, t, d.contents, d.deep) && Lands(t, key, 0)
    ensures var past := d.past + {d.contents[key := value]};
            && L.Apply(d, L.Put(v, key, value)).past == past
            && (d.deep ==> StringsOf(H, past) + Hashed(H, Insert(t, key, H(value), 0)) == StringsOf(H, past))
  {
    hide Shows, PlacedOpt, DeepOpt, StringsOf, MapStrings, Hashed, Lands, Insert;
    if d.deep {
      InsertShows(H, t, d.contents, key, value);
      TreeStrings(H, Some(Insert(t, key, H(value), 0)), d.contents[key := value], d.past + {d.contents[key := value]});
    }
  }

  /** After a delete that lifts no leaf, neither. */
  lemma DeleteStrings(H: Hasher, t: Option<Tree>, d: L.Draft, v: Version, key: Key)
    requires StandsFor(H, t, d.contents, d.deep) && key in d.contents
    ensures var past := d.past + {d.contents - {key}};
            && L.Apply(d, L.Delete(v, key)).past == past
            && (d.deep && !TwinIn(d.contents.Keys, key) ==>
                  StringsOf(H, past) + OptHashed(H, RemoveOpt(t, key)) == StringsOf(H, past))
  {
    hide Shows, PlacedOpt, DeepOpt, StringsOf, MapStrings, OptHashed, RemoveOpt, TwinIn, HasTwin;
    if d.deep && !TwinIn(d.contents.Keys, key) {
      DeleteShows(H, t, d.contents, key);
      DeleteStaysDeep(H, t, d.contents, key);
      TreeStrings(H, RemoveOpt(t, key), d.contents - {key}, d.past + {d.contents - {key}});
    }
  }

  /** What is left after a deletion, in the updater's terms. */
  lemma LeftStrings(H: Hasher, t: Tree, key: Key)
    ensures Remove(t, key, 0).Some? ==> Hashed(H, Remove(t, key, 0).value) == OptHashed(H, RemoveOpt(Some(t), key))
  {
    hide Remove, Hashed;
  }

  lemma StandingTree(H: Hasher, t: Option<Tree>, m: Contents, deep: bool)
    requires StandsFor(H, t, m, deep)
    ensures PlacedOpt(t) && (deep && t.Some? ==> Deep(t.value, 0))
  {
  }

  /** Continue the updater of a pending version with one delete. */
  method DeleteInDraft(H: Hasher, source: NodeSource, v: Version, p: PendingVersion<UpdaterState>, key: Key,
                       ghost d: L.Draft, ghost t: Option<Tree>, ghost shadow: map<NodeKey, Tree>,
                       ghost puts: set<Bytes>)
    returns (ok: bool, state: UpdaterState, ghost shadow': map<NodeKey, Tree>)
    requires source.Sound() && PendingMatches(H, source.nodes, source.values, v, p, d, t, shadow, puts) && d.parent < v
    requires key != ZERO_KEY
    modifies source`entries, source`hits, source`misses
    ensures source.Sound() && ok == (key in d.contents)
    ensures !ok ==> state == StateOf(p) && shadow' == shadow
    ensures ok ==>
        PendingMatches(H, source.nodes, source.values, v, PendingVersion(p.parent, Some(state), p.operations + 1),
                                  L.Apply(d, L.Delete(v, key)), RemoveOpt(t, key), shadow', puts)
    ensures ok && d.deep && d.ops == 0 && TwinIn(d.contents.Keys, key) ==> Lifted(state, v)
  {
    hide NodeSource.Sound, PendingMatches, PendingOk, RepOpt, Regular, StandsFor, RemoveOpt, L.Apply, Deep, Placed,
      SameOutside, TwinIn, HasTwin, ToPath, Hashed, OptHashed, StringsOf, Remove;
    DraftFacts(H, source.nodes, source.values, v, p, d, t, shadow, puts, puts);
    LookupTells(H, t, d.contents, d.deep, key);
    StandingTree(H, t, d.contents, d.deep);
    ghost var past := d.past + {d.contents - {key}};
    ghost var strings := StringsOf(H, past) + OptHashed(H, RemoveOpt(t, key));
    if t.Some? { LeftStrings(H, t.value, key); }
    if d.deep {
      MoreMaps(H, d.past, past);
      RegularMore(H, StateOf(p).writes, shadow, v, StringsOf(H, d.past), strings);
    }
    var u := new TreeUpdater.Resume(H, source, v, StateOf(p), shadow, puts, strings);
    ok := u.Delete(key, t);
    if ok {
      DeleteStrings(H, t, d, v, key);
      if d.deep { TwinsAgree(H, t, d.contents, key, d.deep); }
      DraftAfterDelete(H, source.nodes, source.values, v, u.writes, u.stale, u.currentRoot, d, t, u.shadow, puts, key);
    }
    return ok, u.State(), u.shadow;
  }

  lemma TwinsAgree(H: Hasher, t: Option<Tree>, m: Contents, key: Key, deep: bool)
    requires StandsFor(H, t, m, deep) && deep && key in m
    ensures t.Some? && (HasTwin(t.value, key, 0) <==> TwinIn(m.Keys, key))
  {
    DeleteStaysDeep(H, t, m, key);
  }

  /** The batch of a pending version, if it validates. */
  method BuildBatch(H: Hasher, source: NodeSource, v: Version, p: PendingVersion<UpdaterState>,
                    ghost d: L.Draft, ghost t: Option<Tree>, ghost shadow: map<NodeKey, Tree>, ghost puts: set<Bytes>)
    returns (ok: bool, rootHash: Hash, newNodes: NodeMap)
    requires source.Sound() && PendingMatches(H, source.nodes, source.values, v, p, d, t, shadow, puts) && d.parent < v
    modifies source`entries, source`hits, source`misses
    ensures source.Sound()
    ensures ok <==>
        StateOf(p).currentRoot == NO_KEY || (t.Some? && Acceptable(H, StateOf(p).writes, StateOf(p).stale, v))
    ensures ok ==> BatchOf(H, StateOf(p), v, t, rootHash, newNodes)
  {
    hide NodeSource.Sound, PendingMatches, PendingOk, RepOpt, Regular, StandsFor, Acceptable, RootHash;
    DraftFacts(H, source.nodes, source.values, v, p, d, t, shadow, puts, puts);
    StandingTree(H, t, d.contents, d.deep);
    var u := new TreeUpdater.Resume(H, source, v, StateOf(p), shadow, puts, {});
    ok, rootHash, newNodes := u.BuildUpdateBatch(t);
  }

  lemma BatchSeals(H: Hasher, a: Image, m: Meaning, v: Version, h: Hash, newNodes: NodeMap)
    requires v in a.pending && v in m.ledger.drafts && v in m.drafts && m.ledger.drafts[v].touched
    requires BatchOf(H, StateOf(a.pending[v]), v, m.drafts[v], h, newNodes)
    requires StateOk(H, a, m)
    ensures L.CanSeal(m.ledger.drafts[v])
  {
    hide StateOk, BatchOf, VersionOk, PendingMatches;
    DraftsFacts(H, a, m, v);
    var d, p := m.ledger.drafts[v], a.pending[v];
    if d.ops > 0 { return; }
    EmptyIsCommittable(H, a, m, v);
    BatchCommits(H, a, m, v, h, newNodes);
  }

  lemma BatchCommits(H: Hasher, a: Image, m: Meaning, v: Version, h: Hash, newNodes: NodeMap)
    requires v in a.pending && v in m.drafts && BatchOf(H, StateOf(a.pending[v]), v, m.drafts[v], h, newNodes)
    ensures Committable(H, a, m, v)
  {
    hide RootHash, Acceptable;
  }

  lemma TouchedFacts(H: Hasher, a: Image, m: Meaning, v: Version)
    requires StateOk(H, a, m) && v in a.pending
    ensures v in m.ledger.drafts && (a.pending[v].updater.Some? <==> m.ledger.drafts[v].touched)
    ensures a.pending[v].parent == m.ledger.drafts[v].parent
  {
    hide StateOk, DraftOk;
    DraftsFacts(H, a, m, v);
  }
}
