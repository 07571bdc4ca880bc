/**
 How the state of the versioned tree stands for the ledger, and why each step keeps it so
 (pkg/tree/tree.go).
 */
module TreeState {
  import opened Types
  import opened Merkle
  import opened TreeMap
  import opened Nodes
  import opened NodeStore
  import opened ByteStore
  import opened Contents
  import opened UpdateSteps
  import opened Reader
  import opened Ledger
  import opened Versions
  import opened Updater

  /** Stored nodes belong to committed versions, and the value of each leaf is stored. */
  ghost predicate StoreOk(H: Hasher, nodes: NodeMap, values: map<Hash, Bytes>, committed: set<Version>,
                          puts: set<Bytes>) {
    (forall key | key in nodes :: StoredNode(key, nodes[key], values) && key.version in committed) &&
    ValuesHashed(H, values) && forall h | h in values :: values[h] in puts
  }

  /** The tree `t` stands for a version's contents, and is deep if the ledger says so. */
  ghost predicate StandsFor(H: Hasher, t: Option<Tree>, contents: Contents, deep: bool) {
    PlacedOpt(t) && Shows(H, t, contents) && (deep ==> DeepOpt(t))
  }

  /** The stored nodes of version `v` hold what the ledger has recorded. */
  ghost predicate VersionOk(H: Hasher, nodes: NodeMap, v: Version, t: Option<Tree>, e: Entry) {
    RepOpt(H, nodes, 0, RootNodeKey(v), t) && StandsFor(H, t, e.contents, e.deep)
  }

  /** The pending writes of version `v` hold what its draft says. */
  ghost predicate DraftOk(H: Hasher, nodes: NodeMap, values: map<Hash, Bytes>, v: Version, writes: NodeMap,
                          stale: seq<NodeKey>,
                          root: NodeKey, d: Draft, t: Option<Tree>, shadow: map<NodeKey, Tree>, puts: set<Bytes>) {
    v > 0 && PendingOk(H, nodes, values, v, writes, stale, shadow, puts) &&
    RepOpt(H, nodes + writes, v, root, t) && root.path == [] && StandsFor(H, t, d.contents, d.deep) &&
    (d.deep ==> Regular(H, writes, shadow, v, StringsOf(H, d.past))) &&
    if d.ops == 0 then writes == map[] && root == RootNodeKey(d.parent)
    else root == if t.None? then NO_KEY else RootNodeKey(v)
  }

  /** The stored nodes grow by nodes of version `v` only. */
  ghost predicate Grows(a: NodeMap, b: NodeMap, v: Version) {
    (forall key | key in a :: key.version != v && key in b && b[key] == a[key]) &&
    forall key | key in b && key !in a :: key.version == v
  }

  // ----- Other versions do not notice a commit -----

  /** A tree that does not start in version `v` is untouched by nodes of version `v`. */
  lemma GrownRep(H: Hasher, a: NodeMap, b: NodeMap, writes: NodeMap, u: Version, v: Version, root: NodeKey,
                 t: Option<Tree>)
    requires RepOpt(H, a + writes, u, root, t) && Grows(a, b, v) && root.version != v && u != v
    requires forall key | key in writes :: key !in b
    ensures RepOpt(H, b + writes, u, root, t)
  {
    if t.Some? {
      hide Rep;
      assert KeptBelow(a + writes, b + writes, u, root.path);
      RepFrame(H, a + writes, b + writes, u, root.version, root.path, t.value);
    }
  }

  lemma VersionKept(H: Hasher, a: NodeMap, b: NodeMap, v: Version, u: Version, t: Option<Tree>, e: Entry)
    requires VersionOk(H, a, u, t, e) && Grows(a, b, v) && u != v && v > 0
    ensures VersionOk(H, b, u, t, e)
  {
    hide Rep, Grows, StandsFor;
    assert a + map[] == a && b + map[] == b;
    GrownRep(H, a, b, map[], 0, v, RootNodeKey(u), t);
  }

  lemma PendingKept(H: Hasher, a: NodeMap, b: NodeMap, values: map<Hash, Bytes>, values': map<Hash, Bytes>,
                    v: Version, w: Version,
                    writes: NodeMap, stale: seq<NodeKey>, shadow: map<NodeKey, Tree>, puts: set<Bytes>)
    requires PendingOk(H, a, values, w, writes, stale, shadow, puts) && Grows(a, b, v) && v != w
    requires values.Keys <= values'.Keys
    requires forall key | key in b && key !in a :: StoredNode(key, b[key], values')
    ensures PendingOk(H, b, values', w, writes, stale, shadow, puts)
    ensures forall key | key in writes :: key !in b
  {
    hide Shadows;
    forall key | key in writes
      ensures key !in b
    {
      assert Shadows(H, key, writes[key], shadow[key], w);
      WriteVersion(H, key, writes[key], shadow[key], w);
    }
    forall key | key in b + writes
      ensures Valued(H, (b + writes)[key], values', puts)
    {
      if key in writes || key in a {
        assert (a + writes)[key] == (b + writes)[key];
        assert Valued(H, (a + writes)[key], values, puts);
      }
    }
  }

  lemma WriteVersion(H: Hasher, key: NodeKey, d: NodeData, t: Tree, v: Version)
    requires Shadows(H, key, d, t, v)
    ensures key.version == v
  {
  }

  lemma DraftKept(H: Hasher, a: NodeMap, b: NodeMap, values: map<Hash, Bytes>, values': map<Hash, Bytes>, v: Version,
                  w: Version,
                  writes: NodeMap, stale: seq<NodeKey>, root: NodeKey, d: Draft, t: Option<Tree>,
                  shadow: map<NodeKey, Tree>, puts: set<Bytes>)
    requires DraftOk(H, a, values, w, writes, stale, root, d, t, shadow, puts)
    requires Grows(a, b, v) && 0 < v && v != w && d.parent != v
    requires values.Keys <= values'.Keys
    requires forall key | key in b && key !in a :: StoredNode(key, b[key], values')
    ensures DraftOk(H, b, values', w, writes, stale, root, d, t, shadow, puts)
  {
    hide Grows, RepOpt, StandsFor, PendingOk, StoredNode;
    PendingKept(H, a, b, values, values', v, w, writes, stale, shadow, puts);
    GrownRep(H, a, b, writes, w, v, root, t);
  }

  /** More puts do not disturb a draft. */
  lemma DraftMorePuts(H: Hasher, nodes: NodeMap, values: map<Hash, Bytes>, v: Version, writes: NodeMap,
                      stale: seq<NodeKey>,
                      root: NodeKey, d: Draft, t: Option<Tree>, shadow: map<NodeKey, Tree>, puts: set<Bytes>,
                      puts': set<Bytes>)
    requires DraftOk(H, nodes, values, v, writes, stale, root, d, t, shadow, puts) && puts <= puts'
    ensures DraftOk(H, nodes, values, v, writes, stale, root, d, t, shadow, puts')
  {
    hide RepOpt, StandsFor, Shadows, Regular;
  }

  // ----- A version takes its place in storage -----

  lemma {:induction false} StrippedRep(H: Hasher, a: NodeMap, b: NodeMap, u: Version, v: Version, p: Path, t: Tree)
    requires Rep(H, a, u, v, p, t) && forall key | key in b :: key.version != 0
    requires forall key | key in a :: key in b && Stripped(b[key]) == Stripped(a[key])
    ensures Rep(H, b, 0, v, p, t)
    decreases t
  {
    if t.Branch? {
      var d := a[NodeKey(v, p)];
      forall n | n in t.kids
        ensures Rep(H, b, 0, d.children[n].version, p + [n], t.kids[n])
      {
        StrippedRep(H, a, b, u, d.children[n].version, p + [n], t.kids[n]);
      }
    }
  }

  lemma RealVersions(H: Hasher, nodes: NodeMap, values: map<Hash, Bytes>, v: Version, writes: NodeMap,
                     stale: seq<NodeKey>,
                     shadow: map<NodeKey, Tree>, puts: set<Bytes>)
    requires v > 0 && PendingOk(H, nodes, values, v, writes, stale, shadow, puts)
    ensures forall key | key in nodes + StrippedAll(writes) :: key.version != 0
  {
    hide Stripped, AllValued;
    forall key | key in writes
      ensures key.version == v
    {
      assert Shadows(H, key, writes[key], shadow[key], v);
    }
  }

  /** Without nodes of version `u`, none is overlooked. */
  lemma {:induction false} NothingOverlooked(H: Hasher, nodes: NodeMap, u: Version, v: Version, p: Path, t: Tree)
    requires Rep(H, nodes, 0, v, p, t) && forall key | key in nodes :: key.version != u
    ensures Rep(H, nodes, u, v, p, t)
    decreases t
  {
    if t.Branch? {
      var d := nodes[NodeKey(v, p)];
      forall n | n in t.kids
        ensures Rep(H, nodes, u, d.children[n].version, p + [n], t.kids[n])
      {
        NothingOverlooked(H, nodes, u, d.children[n].version, p + [n], t.kids[n]);
      }
    }
  }

  lemma SealedVersion(H: Hasher, nodes: NodeMap, values: map<Hash, Bytes>, v: Version, writes: NodeMap,
                      stale: seq<NodeKey>,
                      d: Draft, t: Option<Tree>, shadow: map<NodeKey, Tree>, puts: set<Bytes>)
    requires DraftOk(H, nodes, values, v, writes, stale, RootNodeKey(v), d, t, shadow, puts) && d.parent < v
    ensures VersionOk(H, nodes + StrippedAll(writes), v, t, Sealed(d))
  {
    hide StandsFor, PendingOk, Regular, Rep;
    if t.Some? {
      RealVersions(H, nodes, values, v, writes, stale, shadow, puts);
      StrippedRep(H, nodes + writes, nodes + StrippedAll(writes), v, v, [], t.value);
    }
  }

  lemma SealedEmpty(H: Hasher, nodes: NodeMap, values: map<Hash, Bytes>, v: Version, writes: NodeMap,
                    stale: seq<NodeKey>,
                    root: NodeKey, d: Draft, t: Option<Tree>, shadow: map<NodeKey, Tree>, puts: set<Bytes>)
    requires DraftOk(H, nodes, values, v, writes, stale, root, d, t, shadow, puts)
    requires d.ops == 0 || root == NO_KEY
    ensures VersionOk(H, nodes, v, None, Sealed(d))
    ensures d.ops > 0 ==> t == None
  {
    hide Regular;
    if d.ops > 0 {
      assert t.None?;
    }
  }

  lemma NodesGrow(H: Hasher, nodes: NodeMap, values: map<Hash, Bytes>, v: Version, writes: NodeMap,
                  stale: seq<NodeKey>, shadow: map<NodeKey, Tree>, puts: set<Bytes>)
    requires PendingOk(H, nodes, values, v, writes, stale, shadow, puts)
    ensures Grows(nodes, nodes + StrippedAll(writes), v)
  {
    hide Shadows;
    forall key | key in writes
      ensures key.version == v
    {
      assert Shadows(H, key, writes[key], shadow[key], v);
      WriteVersion(H, key, writes[key], shadow[key], v);
    }
  }

  // ----- The whole state -----

  type Pending = map<Version, PendingVersion<UpdaterState>>
  type ShadowMap = map<Version, map<NodeKey, Tree>>
  type TreeMapping = map<Version, Option<Tree>>

  /** The updater of a pending version, or a new one. */
  function StateOf(p: PendingVersion<UpdaterState>): UpdaterState {
    if p.updater.Some? then p.updater.value else NewState(p.parent)
  }

  ghost predicate PendingMatches(H: Hasher, nodes: NodeMap, values: map<Hash, Bytes>, v: Version,
                                 p: PendingVersion<UpdaterState>,
                                 d: Draft, t: Option<Tree>, shadow: map<NodeKey, Tree>, puts: set<Bytes>) {
    p.parent == d.parent && p.operations == d.ops && (p.updater.Some? <==> d.touched) &&
    DraftOk(H, nodes, values, v, StateOf(p).writes, StateOf(p).stale, StateOf(p).currentRoot, d, t, shadow, puts)
  }

  ghost predicate AllDrafts(H: Hasher, nodes: NodeMap, values: map<Hash, Bytes>, pending: Pending,
                            drafts: map<Version, Draft>, puts: set<Bytes>, trees: TreeMapping, shadows: ShadowMap) {
    pending.Keys == drafts.Keys && trees.Keys == drafts.Keys && shadows.Keys == drafts.Keys &&
    forall v | v in pending :: PendingMatches(H, nodes, values, v, pending[v], drafts[v], trees[v], shadows[v], puts)
  }

  ghost predicate AllVersions(H: Hasher, nodes: NodeMap, committed: map<Version, Entry>, trees: TreeMapping) {
    trees.Keys == committed.Keys &&
    forall v | v in trees :: VersionOk(H, nodes, v, trees[v], committed[v])
  }

  /** Each hash is that of the tree which the ledger names for its version. */
  ghost predicate HashesMatch(H: Hasher, hashes: map<Version, Hash>, trees: TreeMapping,
                              hashOf: map<Version, Version>) {
    forall v | v in hashes :: v in hashOf && hashOf[v] in trees && hashes[v] == RootHash(H, trees[hashOf[v]])
  }

  /** The index of root hashes covers the live versions, 0 perhaps not. */
  ghost predicate IndexOk(H: Hasher, rootHashes: map<Version, Hash>, latestVer: Version, live: set<Version>,
                          top: Version, trees: TreeMapping, hashOf: map<Version, Version>) {
    live - {0} <= rootHashes.Keys <= live && latestVer == top && (0 in rootHashes ==> rootHashes[0] == ZERO) &&
    HashesMatch(H, rootHashes, trees, hashOf)
  }

  /** The root hashes in storage are those of the versions that the ledger names, and every node is of one of them. */
  ghost predicate RootsOk(H: Hasher, roots: map<Version, Hash>, nodes: NodeMap, stored: set<Version>,
                          trees: TreeMapping, hashOf: map<Version, Version>) {
    roots.Keys == stored && HashesMatch(H, roots, trees, hashOf) && forall key | key in nodes :: key.version in roots
  }

  /** The version manager agrees with the ledger and with the index. */
  ghost predicate ManagerMatches(versions: VersionMap, live: set<Version>, aborted: set<Version>,
                                 rootHashes: map<Version, Hash>) {
    versions.Keys == live + aborted && rootHashes.Keys <= live &&
    (forall v | v in versions :: versions[v].status == Committed <==> v in live) &&
    forall v | v in rootHashes :: versions[v].rootHash == rootHashes[v]
  }

  /** A draft whose updater has put a value. */
  lemma DraftAfterPut(H: Hasher, nodes: NodeMap, values: map<Hash, Bytes>, v: Version, writes: NodeMap,
                      stale: seq<NodeKey>,
                      d: Draft, t: Option<Tree>, shadow: map<NodeKey, Tree>, puts: set<Bytes>, key: Key, value: Bytes)
    requires v > 0 && StandsFor(H, t, d.contents, d.deep) && Lands(t, key, 0)
    requires PendingOk(H, nodes, values, v, writes, stale, shadow, puts)
    requires RepOpt(H, nodes + writes, v, RootNodeKey(v), Some(Insert(t, key, H(value), 0)))
    requires d.deep ==> Regular(H, writes, shadow, v, StringsOf(H, Apply(d, Put(v, key, value)).past))
    ensures PendingMatches(H, nodes, values, v,
                           PendingVersion(d.parent, Some(UpdaterState(writes, stale, RootNodeKey(v))), d.ops + 1),
                           Apply(d, Put(v, key, value)), Some(Insert(t, key, H(value), 0)), shadow, puts)
  {
    hide StringsOf, Regular, RepOpt, Shows, PlacedOpt, DeepOpt, StoredOk, WritesShadowed, AllValued;
    InsertShows(H, t, d.contents, key, value);
  }

  /** A draft whose updater has deleted a key. */
  lemma DraftAfterDelete(H: Hasher, nodes: NodeMap, values: map<Hash, Bytes>, v: Version, writes: NodeMap,
                         stale: seq<NodeKey>, root: NodeKey,
                         d: Draft, t: Option<Tree>, shadow: map<NodeKey, Tree>, puts: set<Bytes>, key: Key)
    requires v > 0 && StandsFor(H, t, d.contents, d.deep) && key in d.contents
    requires PendingOk(H, nodes, values, v, writes, stale, shadow, puts)
    requires RepOpt(H, nodes + writes, v, root, RemoveOpt(t, key)) &&
        root == if RemoveOpt(t, key).None? then NO_KEY else RootNodeKey(v)
    requires d.deep && t.Some? && !HasTwin(t.value, key, 0) ==>
               Regular(H, writes, shadow, v, StringsOf(H, Apply(d, Delete(v, key)).past))
    ensures PendingMatches(H, nodes, values, v,
                           PendingVersion(d.parent, Some(UpdaterState(writes, stale, root)), d.ops + 1),
                           Apply(d, Delete(v, key)), RemoveOpt(t, key), shadow, puts)
  {
    hide StringsOf, Regular, RepOpt, Shows, PlacedOpt, DeepOpt, StoredOk, WritesShadowed, AllValued, TwinIn, HasTwin,
      RemoveOpt;
    DeleteShows(H, t, d.contents, key);
    if d.deep { DeleteStaysDeep(H, t, d.contents, key); }
  }

  /** What a draft gives the updater that continues it. */
  lemma DraftFacts(H: Hasher, nodes: NodeMap, values: map<Hash, Bytes>, v: Version, p: PendingVersion<UpdaterState>,
                   d: Draft, t: Option<Tree>, shadow: map<NodeKey, Tree>, puts: set<Bytes>, puts': set<Bytes>)
    requires PendingMatches(H, nodes, values, v, p, d, t, shadow, puts) && puts <= puts' && d.parent < v
    ensures var s := StateOf(p);
            && v > 0 && PendingOk(H, nodes, values, v, s.writes, s.stale, shadow, puts') && s.writes.Keys == shadow.Keys
            && RepOpt(H, nodes + s.writes, v, s.currentRoot, t) && s.currentRoot.path == [] &&
                 s.currentRoot.version <= v
            && StandsFor(H, t, d.contents, d.deep) && (d.deep ==> Regular(H, s.writes, shadow, v, StringsOf(H, d.past)))
            && (d.ops == 0 ==> s.writes == map[]) && p.parent == d.parent && p.operations == d.ops
  {
    hide RepOpt, StandsFor, Shadows, Regular, StoredOk;
    var s := StateOf(p);
    DraftMorePuts(H, nodes, values, v, s.writes, s.stale, s.currentRoot, d, t, shadow, puts, puts');
  }

  /** A key is in a draft exactly when the tree has a leaf for it. */
  lemma LookupTells(H: Hasher, t: Option<Tree>, m: Contents, deep: bool, key: Key)
    requires StandsFor(H, t, m, deep)
    ensures LookupOpt(t, key, 0).Some? <==> key in m
    ensures key in m ==> LookupOpt(t, key, 0) == Some(H(m[key]))
  {
    hide PlacedOpt, DeepOpt;
  }

  /** One draft has changed; the others stay. */
  lemma DraftReplaced(H: Hasher, nodes: NodeMap, values: map<Hash, Bytes>, pending: Pending,
                      drafts: map<Version, Draft>, puts: set<Bytes>,
                      trees: TreeMapping, shadows: ShadowMap, v: Version, p: PendingVersion<UpdaterState>, d: Draft,
                      puts': set<Bytes>,
                      t: Option<Tree>, shadow: map<NodeKey, Tree>)
    requires AllDrafts(H, nodes, values, pending, drafts, puts, trees, shadows) && puts <= puts'
    requires PendingMatches(H, nodes, values, v, p, d, t, shadow, puts')
    ensures AllDrafts(H, nodes, values, pending[v := p], drafts[v := d], puts', trees[v := t], shadows[v := shadow])
  {
    hide DraftOk;
    forall w | w in pending && w != v
      ensures PendingMatches(H, nodes, values, w, pending[w], drafts[w], trees[w], shadows[w], puts')
    {
      var s := StateOf(pending[w]);
      DraftMorePuts(H, nodes, values, w, s.writes, s.stale, s.currentRoot, drafts[w], trees[w], shadows[w], puts,
                    puts');
    }
  }

  lemma DraftRemoved(H: Hasher, nodes: NodeMap, values: map<Hash, Bytes>, pending: Pending,
                     drafts: map<Version, Draft>, puts: set<Bytes>,
                     trees: TreeMapping, shadows: ShadowMap, v: Version)
    requires AllDrafts(H, nodes, values, pending, drafts, puts, trees, shadows)
    ensures AllDrafts(H, nodes, values, pending - {v}, drafts - {v}, puts, trees - {v}, shadows - {v})
  {
    hide PendingMatches;
  }

  /** Committing version `v` grows the store; no other draft notices. */
  lemma DraftsKept(H: Hasher, a: NodeMap, b: NodeMap, values: map<Hash, Bytes>, values': map<Hash, Bytes>, v: Version,
                   pending: Pending, drafts: map<Version, Draft>, puts: set<Bytes>, trees: TreeMapping,
                   shadows: ShadowMap)
    requires AllDrafts(H, a, values, pending, drafts, puts, trees, shadows)
    requires Grows(a, b, v) && 0 < v && values.Keys <= values'.Keys
    requires forall w | w in drafts :: w != v && drafts[w].parent != v
    requires forall key | key in b && key !in a :: StoredNode(key, b[key], values')
    ensures AllDrafts(H, b, values', pending, drafts, puts, trees, shadows)
  {
    hide DraftOk, Grows, StoredNode;
    forall w | w in pending
      ensures PendingMatches(H, b, values', w, pending[w], drafts[w], trees[w], shadows[w], puts)
    {
      var s := StateOf(pending[w]);
      DraftKept(H, a, b, values, values', v, w, s.writes, s.stale, s.currentRoot, drafts[w], trees[w], shadows[w],
                puts);
    }
  }

  lemma VersionsKept(H: Hasher, a: NodeMap, b: NodeMap, v: Version, committed: map<Version, Entry>,
                     trees: TreeMapping, e: Entry, t: Option<Tree>)
    requires AllVersions(H, a, committed, trees) && Grows(a, b, v) && v !in committed && v > 0
    requires VersionOk(H, b, v, t, e)
    ensures AllVersions(H, b, committed[v := e], trees[v := t])
  {
    hide VersionOk, Grows;
    forall u | u in trees && u != v
      ensures VersionOk(H, b, u, trees[u], committed[u])
    {
      VersionKept(H, a, b, v, u, trees[u], committed[u]);
    }
  }

  /** A version just begun stands for its parent. */
  lemma OpenedDraft(H: Hasher, nodes: NodeMap, values: map<Hash, Bytes>, committed: set<Version>, puts: set<Bytes>,
                    v: Version, parent: Version, t: Option<Tree>, e: Entry)
    requires StoreOk(H, nodes, values, committed, puts) && 0 < v && v !in committed
    requires VersionOk(H, nodes, parent, t, e)
    ensures PendingMatches(H, nodes, values, v, PendingVersion(parent, None, 0),
                           Draft(parent, e.contents, e.deep, 0, {}, false),
                           t, map[], puts)
  {
    hide Rep, StandsFor;
    assert nodes + map[] == nodes;
    assert AllValued(H, nodes, values, puts);
    if t.Some? { NothingOverlooked(H, nodes, v, parent, [], t.value); }
  }
}
