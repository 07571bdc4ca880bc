/**
 Why every step of the versioned tree keeps its state in line with the ledger (pkg/tree/tree.go).
 */
module TreeSteps {
  import opened Types
  import opened Merkle
  import opened TreeMap
  import opened Nodes
  import opened NodeStore
  import opened ByteStore
  import opened Contents
  import opened UpdateSteps
  import opened Reader
  import opened Ledger
  import opened Versions
  import opened Updater
  import opened TreeState
  import opened Validation

  /** The tree's fields, together with its storage and its version manager. */
  datatype Image = Image(
    nodes: NodeMap,
    values: map<Hash, Bytes>,
    roots: map<Version, Hash>,
    pending: Pending,
    versions: VersionMap,
    latest: Version,
    current: Version,
    rootHashes: map<Version, Hash>,
    latestVer: Version)

  /** What the fields stand for. */
  datatype Meaning = Meaning(ledger: Ledger, trees: TreeMapping, drafts: TreeMapping, shadows: ShadowMap)

  ghost predicate StateOk(H: Hasher, a: Image, m: Meaning) {
    Wellformed(m.ledger) &&
    StoreOk(H, a.nodes, a.values, m.ledger.committed.Keys, m.ledger.puts) &&
    AllVersions(H, a.nodes, m.ledger.committed, m.trees) &&
    AllDrafts(H, a.nodes, a.values, a.pending, m.ledger.drafts, m.ledger.puts, m.drafts, m.shadows) &&
    IndexOk(H, a.rootHashes, a.latestVer, m.ledger.live, m.ledger.top, m.trees, m.ledger.hashOf) &&
    RootsOk(H, a.roots, a.nodes, m.ledger.stored, m.trees, m.ledger.hashOf) &&
    ManagerOk(a.versions, a.pending.Keys, a.latest, a.current) &&
    ManagerMatches(a.versions, m.ledger.live, m.ledger.aborted, a.rootHashes) &&
    a.latest == m.ledger.latest && a.current == m.ledger.top
  }

  const NEW_IMAGE := Image(map[], map[], map[], map[], map[0 := VersionInfo(ZERO, 0, Committed)], 0, 0,
                           map[0 := ZERO], 0)
  const NEW_MEANING := Meaning(INITIAL, map[0 := None], map[], map[])

  lemma NewOk(H: Hasher)
    ensures StateOk(H, NEW_IMAGE, NEW_MEANING)
  {
    InitialWellformed();
    hide Wellformed;
  }

  lemma TopFacts(H: Hasher, a: Image, m: Meaning)
    requires StateOk(H, a, m)
    ensures m.ledger.top in m.ledger.committed && a.current in a.versions && a.versions[a.current].status == Committed
    ensures m.ledger.latest < MAX_VERSION ==> m.ledger.latest + 1 !in m.ledger.committed
    ensures m.ledger.top in m.trees
    ensures VersionOk(H, a.nodes, m.ledger.top, m.trees[m.ledger.top], m.ledger.committed[m.ledger.top])
  {
    hide AllDrafts, StoreOk, RootsOk, IndexOk, VersionOk;
  }

  lemma DraftsFacts(H: Hasher, a: Image, m: Meaning, v: Version)
    requires StateOk(H, a, m)
    ensures v in a.pending <==> v in m.ledger.drafts
    ensures v in a.pending <==> v in m.shadows
    ensures v in a.pending ==> v in m.drafts && m.ledger.drafts[v].parent < v <= MAX_VERSION
    ensures v in a.pending ==>
        PendingMatches(H, a.nodes, a.values, v, a.pending[v], m.ledger.drafts[v], m.drafts[v], m.shadows[v],
                       m.ledger.puts)
  {
    hide AllVersions, StoreOk, IndexOk, RootsOk, ManagerMatches, PendingMatches, ManagerOk, ValuesOk;
  }

  /** A key always has a place in a tree with all leaves at depth 64. */
  lemma DeepLands(H: Hasher, a: Image, m: Meaning, v: Version, key: Key)
    requires StateOk(H, a, m) && v in m.ledger.drafts && m.ledger.drafts[v].deep
    ensures v in m.drafts && Lands(m.drafts[v], key, 0)
  {
    hide StateOk, Lands, Deep, Placed, PendingOk, RepOpt, Regular, Shows;
    DraftsFacts(H, a, m, v);
    InsertIsDeep(m.drafts[v], key, ZERO, []);
  }

  // ----- Steps on drafts -----

  ghost function BeginMeaning(m: Meaning): Meaning
    requires m.ledger.latest < MAX_VERSION && m.ledger.top in m.trees
  {
    var v := m.ledger.latest + 1;
    m.(ledger := Next(m.ledger, Begin), drafts := m.drafts[v := m.trees[m.ledger.top]],
       shadows := m.shadows[v := map[]])
  }

  lemma BeginManager(versions: VersionMap, pending: set<Version>, latest: Version, current: Version)
    requires ManagerOk(versions, pending, latest, current) && latest < MAX_VERSION
    ensures ManagerOk(versions, pending + {latest + 1}, latest + 1, current)
  {
  }

  function BeginImage(a: Image): Image
    requires a.latest < MAX_VERSION
  {
    a.(pending := a.pending[a.latest + 1 := PendingVersion(a.current, None, 0)], latest := a.latest + 1)
  }

  lemma BeginOk(H: Hasher, a: Image, m: Meaning)
    requires a.latest < MAX_VERSION && m.ledger.latest < MAX_VERSION && m.ledger.top in m.trees
    requires StateOk(H, a, m)
    ensures StateOk(H, BeginImage(a), BeginMeaning(m))
  {
    hide AllDrafts, AllVersions, StoreOk, RootsOk, IndexOk, VersionOk, Wellformed, PendingMatches, ManagerMatches,
      ManagerOk;
    TopFacts(H, a, m);
    var l, v := m.ledger, m.ledger.latest + 1;
    NextWellformed(l, Begin);
    BeginManager(a.versions, a.pending.Keys, a.latest, a.current);
    assert a.pending[v := PendingVersion(a.current, None, 0)].Keys == a.pending.Keys + {v};
    OpenedDraft(H, a.nodes, a.values, l.committed.Keys, l.puts, v, l.top, m.trees[l.top], l.committed[l.top]);
    DraftReplaced(H, a.nodes, a.values, a.pending, l.drafts, l.puts, m.drafts, m.shadows,
                  v, PendingVersion(a.current, None, 0), Next(l, Begin).drafts[v], l.puts, m.trees[l.top], map[]);
  }

  /** What a put or delete in a draft makes of the meaning. */
  ghost function ChangedMeaning(m: Meaning, s: Step, t: Option<Tree>, shadow: map<NodeKey, Tree>): Meaning
    requires s.Put? || s.Delete?
  {
    m.(ledger := Next(m.ledger, s), drafts := m.drafts[s.v := t], shadows := m.shadows[s.v := shadow])
  }

  lemma StoreMorePuts(H: Hasher, nodes: NodeMap, values: map<Hash, Bytes>, committed: set<Version>, puts: set<Bytes>,
                      puts': set<Bytes>)
    requires StoreOk(H, nodes, values, committed, puts) && puts <= puts'
    ensures StoreOk(H, nodes, values, committed, puts')
  {
  }

  lemma DraftChanged(H: Hasher, a: Image, m: Meaning, s: Step, p: PendingVersion<UpdaterState>, t: Option<Tree>,
                     shadow: map<NodeKey, Tree>)
    requires StateOk(H, a, m)
    requires (s.Put? && CanPut(m.ledger, s.v, s.key, s.value)) || (s.Delete? && CanDelete(m.ledger, s.v, s.key))
    requires PendingMatches(H, a.nodes, a.values, s.v, p, Apply(m.ledger.drafts[s.v], s), t, shadow,
                            Next(m.ledger, s).puts)
    ensures StateOk(H, a.(pending := a.pending[s.v := p]), ChangedMeaning(m, s, t, shadow))
  {
    hide AllDrafts, AllVersions, StoreOk, RootsOk, IndexOk, VersionOk, Wellformed, PendingMatches, ManagerMatches,
      ManagerOk, Apply;
    var l := m.ledger;
    NextWellformed(l, s);
    DraftsFacts(H, a, m, s.v);
    StoreMorePuts(H, a.nodes, a.values, l.committed.Keys, l.puts, Next(l, s).puts);
    assert a.pending[s.v := p].Keys == a.pending.Keys;
    DraftReplaced(H, a.nodes, a.values, a.pending, l.drafts, l.puts, m.drafts, m.shadows,
                  s.v, p, Apply(l.drafts[s.v], s), Next(l, s).puts, t, shadow);
  }

  /** A refused delete has still given the version its updater. */
  lemma DraftTouched(H: Hasher, a: Image, m: Meaning, v: Version, key: Key)
    requires StateOk(H, a, m) && v in a.pending && v <= MAX_VERSION
    requires key != ZERO_KEY && !CanDelete(m.ledger, v, key)
    ensures var p := a.pending[v];
            StateOk(H, a.(pending := a.pending[v := PendingVersion(p.parent, Some(StateOf(p)), p.operations)]),
                    m.(ledger := Next(m.ledger, Delete(v, key))))
  {
    hide AllDrafts, AllVersions, RootsOk, IndexOk, VersionOk, Wellformed, ManagerMatches, ManagerOk, DraftOk, StoreOk,
      PendingMatches;
    var l, p := m.ledger, a.pending[v];
    var p' := PendingVersion(p.parent, Some(StateOf(p)), p.operations);
    DraftsFacts(H, a, m, v);
    NextWellformed(l, Delete(v, key));
    TouchedMatches(H, a.nodes, a.values, v, p, l.drafts[v], m.drafts[v], m.shadows[v], l.puts);
    assert a.pending[v := p'].Keys == a.pending.Keys;
    DraftReplaced(H, a.nodes, a.values, a.pending, l.drafts, l.puts, m.drafts, m.shadows, v, p',
                  l.drafts[v].(touched := true), l.puts, m.drafts[v], m.shadows[v]);
    assert m.drafts[v := m.drafts[v]] == m.drafts && m.shadows[v := m.shadows[v]] == m.shadows;
  }

  lemma TouchedMatches(H: Hasher, nodes: NodeMap, values: map<Hash, Bytes>, v: Version, p: PendingVersion<UpdaterState>,
                       d: Draft, t: Option<Tree>, shadow: map<NodeKey, Tree>, puts: set<Bytes>)
    requires PendingMatches(H, nodes, values, v, p, d, t, shadow, puts)
    ensures PendingMatches(H, nodes, values, v, PendingVersion(p.parent, Some(StateOf(p)), p.operations),
                           d.(touched := true), t, shadow, puts)
  {
    hide PendingOk, RepOpt, StandsFor, Regular;
  }

  // ----- Finishing a version -----

  ghost function AbortMeaning(m: Meaning, v: Version): Meaning {
    m.(ledger := Next(m.ledger, Abort(v)), drafts := m.drafts - {v}, shadows := m.shadows - {v})
  }

  lemma AbortOk(H: Hasher, a: Image, m: Meaning, v: Version, versions: VersionMap)
    requires StateOk(H, a, m) && v in a.pending
    requires versions == a.versions[v := VersionInfo(ZERO, a.pending[v].parent, Aborted)]
    ensures StateOk(H, a.(pending := a.pending - {v}, versions := versions), AbortMeaning(m, v))
  {
    hide AllDrafts, AllVersions, RootsOk, IndexOk, VersionOk, Wellformed, PendingMatches, StoreOk, ManagerOk,
      ManagerMatches;
    var l := m.ledger;
    NextWellformed(l, Abort(v));
    DraftsFacts(H, a, m, v);
    AbortNumbers(l, v);
    AbortManager(a.versions, a.pending.Keys, a.latest, a.current, v, a.pending[v].parent, l.live, l.aborted,
                 a.rootHashes);
    assert (a.pending - {v}).Keys == a.pending.Keys - {v};
    DraftRemoved(H, a.nodes, a.values, a.pending, l.drafts, l.puts, m.drafts, m.shadows, v);
  }

  lemma AbortManager(versions: VersionMap, pending: set<Version>, latest: Version, current: Version,
                     v: Version, parent: Version, live: set<Version>, aborted: set<Version>,
                     rootHashes: map<Version, Hash>)
    requires ManagerOk(versions, pending, latest, current) && v in pending
    requires ManagerMatches(versions, live, aborted, rootHashes) && v !in live
    ensures ManagerOk(versions[v := VersionInfo(ZERO, parent, Aborted)], pending - {v}, latest, current)
    ensures ManagerMatches(versions[v := VersionInfo(ZERO, parent, Aborted)], live, aborted + {v}, rootHashes)
  {
  }

  lemma AbortNumbers(l: Ledger, v: Version)
    requires Wellformed(l) && v in l.drafts
    ensures v !in l.live && v !in l.aborted && v !in l.committed && v <= l.latest && v > 0
  {
    hide ValuesOk, ParentsOk;
  }

  ghost function CollectMeaning(m: Meaning, gone: set<Version>): Meaning {
    m.(ledger := Next(m.ledger, Collect(gone)))
  }

  lemma CollectOk(H: Hasher, a: Image, m: Meaning, gone: set<Version>)
    requires StateOk(H, a, m) && gone <= CommittedOf(a.versions) - {a.current}
    ensures StateOk(H, a.(versions := a.versions - gone, rootHashes := a.rootHashes - gone), CollectMeaning(m, gone))
  {
    hide AllDrafts, AllVersions, RootsOk, IndexOk, VersionOk, Wellformed, StoreOk, ManagerOk, ManagerMatches;
    NextWellformed(m.ledger, Collect(gone));
    LiveIsCommitted(m.ledger);
    assert gone - {0, m.ledger.top} == gone;
    ForgettingIsSafe(a.versions, a.pending.Keys, a.latest, a.current, gone);
    CollectIndex(H, a.rootHashes, a.latestVer, m.ledger.live, m.ledger.top, m.trees, m.ledger.hashOf, gone);
    CollectManager(a.versions, m.ledger.live, m.ledger.aborted, a.rootHashes, gone);
  }

  lemma CollectIndex(H: Hasher, rootHashes: map<Version, Hash>, latestVer: Version, live: set<Version>, top: Version,
                     trees: TreeMapping, hashOf: map<Version, Version>, gone: set<Version>)
    requires IndexOk(H, rootHashes, latestVer, live, top, trees, hashOf)
    ensures IndexOk(H, rootHashes - gone, latestVer, live - gone, top, trees, hashOf)
  {
    hide RootHash;
  }

  lemma CollectManager(versions: VersionMap, live: set<Version>, aborted: set<Version>,
                       rootHashes: map<Version, Hash>, gone: set<Version>)
    requires ManagerMatches(versions, live, aborted, rootHashes) && gone <= CommittedOf(versions) && live !! aborted
    ensures ManagerMatches(versions - gone, live - gone, aborted, rootHashes - gone)
  {
  }

  lemma LiveIsCommitted(l: Ledger)
    requires Wellformed(l)
    ensures l.live !! l.aborted
  {
    hide ValuesOk, ParentsOk;
  }

  // ----- Commit -----

  function Later(v: Version, w: Version): Version {
    if v > w then v else w
  }

  /** What storage holds after the commit of `v`. */
  datatype Written = Written(nodes: NodeMap, values: map<Hash, Bytes>, roots: map<Version, Hash>)

  /** A storage batch for the commit of `v`, under the root hash `h`, of what stands for `t`. */
  ghost predicate CommitWrites(H: Hasher, a: Image, m: Meaning, v: Version, h: Hash, t: Option<Tree>, w: Written)
    requires v in m.ledger.drafts
  {
    var d := m.ledger.drafts[v];
    Grows(a.nodes, w.nodes, v) && a.values.Keys <= w.values.Keys &&
    (forall key | key in w.nodes && key !in a.nodes :: StoredNode(key, w.nodes[key], w.values)) &&
    ValuesHashed(H, w.values) && (forall h | h in w.values :: w.values[h] in m.ledger.puts) &&
    VersionOk(H, w.nodes, v, t, Sealed(d)) && CanSeal(d) &&
    HasHash(H, m.trees[v := t], HashSource(m.ledger, v, d), h) &&
    if d.touched then w.roots == a.roots[v := h] else w.roots == a.roots && w.nodes == a.nodes
  }

  ghost function CommitMeaning(m: Meaning, v: Version, t: Option<Tree>): Meaning {
    Meaning(Next(m.ledger, Commit(v)), m.trees[v := t], m.drafts - {v}, m.shadows - {v})
  }

  function CommitImage(a: Image, v: Version, h: Hash, w: Written): Image
    requires v in a.pending
  {
    Image(w.nodes, w.values, w.roots, a.pending - {v}, a.versions[v := VersionInfo(h, a.pending[v].parent, Committed)],
          a.latest, Later(v, a.current), a.rootHashes[v := h], Later(v, a.latestVer))
  }

  /** The other drafts do not notice. */
  lemma CommitDrafts(H: Hasher, a: Image, m: Meaning, v: Version, h: Hash, t: Option<Tree>, w: Written)
    requires StateOk(H, a, m) && v in m.ledger.drafts && CommitWrites(H, a, m, v, h, t, w)
    ensures AllDrafts(H, w.nodes, w.values, a.pending - {v}, m.ledger.drafts - {v}, m.ledger.puts, m.drafts - {v},
                      m.shadows - {v})
  {
    hide AllDrafts, AllVersions, RootsOk, IndexOk, VersionOk, Wellformed, PendingMatches, StoreOk, StoredNode, Grows,
      ManagerOk, ManagerMatches;
    DraftParents(m.ledger, v);
    DraftRemoved(H, a.nodes, a.values, a.pending, m.ledger.drafts, m.ledger.puts, m.drafts, m.shadows, v);
    DraftsKept(H, a.nodes, w.nodes, a.values, w.values, v, a.pending - {v}, m.ledger.drafts - {v}, m.ledger.puts,
               m.drafts - {v}, m.shadows - {v});
  }

  lemma DraftParents(l: Ledger, v: Version)
    requires Wellformed(l) && v in l.drafts
    ensures v > 0 && forall u | u in l.drafts :: l.drafts[u].parent != v
  {
    hide Wellformed, NumbersOk, ParentsOk, ParentOf;
    AbortNumbers(l, v);
    forall u | u in l.drafts
      ensures l.drafts[u].parent in l.committed
    {
      DraftParent(l, u);
    }
  }

  lemma DraftParent(l: Ledger, u: Version)
    requires Wellformed(l) && u in l.drafts
    ensures l.drafts[u].parent in l.committed && l.drafts[u].parent < u
  {
    hide ValuesOk, ParentOf;
    assert ParentOf(l.drafts[u].parent, u, l.committed.Keys);
    AbortNumbers(l, u);
    ParentIsOlder(l.drafts[u].parent, u, l.committed.Keys);
  }

  lemma ParentIsOlder(p: Version, v: Version, committed: set<Version>)
    requires ParentOf(p, v, committed) && v > 0
    ensures p in committed && p < v
  {
  }

  /** Neither do the committed versions, and `v` joins them. */
  lemma CommitVersions(H: Hasher, a: Image, m: Meaning, v: Version, h: Hash, t: Option<Tree>, w: Written)
    requires StateOk(H, a, m) && v in m.ledger.drafts && CommitWrites(H, a, m, v, h, t, w)
    ensures AllVersions(H, w.nodes, m.ledger.committed[v := Sealed(m.ledger.drafts[v])], m.trees[v := t])
  {
    hide AllDrafts, AllVersions, RootsOk, IndexOk, VersionOk, Wellformed, StoreOk, StoredNode, Grows, ManagerOk,
      ManagerMatches, Sealed;
    AbortNumbers(m.ledger, v);
    VersionsKept(H, a.nodes, w.nodes, v, m.ledger.committed, m.trees, Sealed(m.ledger.drafts[v]), t);
  }

  lemma CommitStore(H: Hasher, a: Image, m: Meaning, v: Version, h: Hash, t: Option<Tree>, w: Written)
    requires StoreOk(H, a.nodes, a.values, m.ledger.committed.Keys, m.ledger.puts)
    requires v in m.ledger.drafts && CommitWrites(H, a, m, v, h, t, w)
    ensures StoreOk(H, w.nodes, w.values, m.ledger.committed.Keys + {v}, m.ledger.puts)
  {
    hide VersionOk, Sealed, ValuesHashed;
  }

  /** One more hash, of the new tree or of an old one. */
  lemma HashAdded(H: Hasher, hashes: map<Version, Hash>, trees: TreeMapping, hashOf: map<Version, Version>, v: Version,
                  t: Option<Tree>, w: Version, h: Hash)
    requires HashesMatch(H, hashes, trees, hashOf) && v !in trees
    requires HasHash(H, trees[v := t], w, h)
    ensures HashesMatch(H, hashes[v := h], trees[v := t], hashOf[v := w])
    ensures v !in hashes ==> HashesMatch(H, hashes, trees[v := t], hashOf[v := w])
  {
    hide RootHash;
  }

  lemma CommitIndex(H: Hasher, rootHashes: map<Version, Hash>, latestVer: Version, live: set<Version>, top: Version,
                    trees: TreeMapping, hashOf: map<Version, Version>, v: Version, h: Hash, t: Option<Tree>, w: Version)
    requires IndexOk(H, rootHashes, latestVer, live, top, trees, hashOf)
    requires v > 0 && v !in trees && HasHash(H, trees[v := t], w, h)
    ensures IndexOk(H, rootHashes[v := h], Later(v, latestVer), live + {v}, Later(v, top), trees[v := t],
                    hashOf[v := w])
  {
    hide RootHash, HashesMatch, HasHash;
    HashAdded(H, rootHashes, trees, hashOf, v, t, w, h);
  }

  lemma CommitRoots(H: Hasher, a: Image, m: Meaning, v: Version, h: Hash, t: Option<Tree>, w: Written)
    requires RootsOk(H, a.roots, a.nodes, m.ledger.stored, m.trees, m.ledger.hashOf) && v > 0 && v !in m.trees
    requires v !in m.ledger.stored && v in m.ledger.drafts && CommitWrites(H, a, m, v, h, t, w)
    ensures var d, l := m.ledger.drafts[v], m.ledger;
            RootsOk(H, w.roots, w.nodes, if d.touched then l.stored + {v} else l.stored, m.trees[v := t],
                    l.hashOf[v := HashSource(l, v, d)])
  {
    hide VersionOk, StoredNode, ValuesHashed, HasHash, HashesMatch, HashSource;
    HashAdded(H, a.roots, m.trees, m.ledger.hashOf, v, t, HashSource(m.ledger, v, m.ledger.drafts[v]), h);
  }

  lemma CommitManager(versions: VersionMap, pending: set<Version>, latest: Version, current: Version,
                      v: Version, h: Hash, parent: Version, live: set<Version>, aborted: set<Version>,
                      rootHashes: map<Version, Hash>)
    requires ManagerOk(versions, pending, latest, current) && v in pending
    requires ManagerMatches(versions, live, aborted, rootHashes) && v !in live && v !in aborted
    ensures ManagerOk(versions[v := VersionInfo(h, parent, Committed)], pending - {v}, latest, Later(v, current))
    ensures ManagerMatches(versions[v := VersionInfo(h, parent, Committed)], live + {v}, aborted, rootHashes[v := h])
  {
  }

  lemma CommitFacts(H: Hasher, a: Image, m: Meaning, v: Version, h: Hash, t: Option<Tree>, w: Written)
    requires v in m.ledger.drafts && CommitWrites(H, a, m, v, h, t, w)
    ensures CanSeal(m.ledger.drafts[v])
    ensures HasHash(H, m.trees[v := t], HashSource(m.ledger, v, m.ledger.drafts[v]), h)
  {
    hide VersionOk, StoredNode, ValuesHashed, HasHash, Grows, HashSource;
  }

  lemma TreesFit(H: Hasher, a: Image, m: Meaning, v: Version)
    requires StateOk(H, a, m)
    ensures m.trees.Keys == m.ledger.committed.Keys && m.ledger.stored <= m.ledger.committed.Keys
    ensures m.ledger.hashOf.Keys == m.ledger.committed.Keys && 0 in m.ledger.committed
    ensures m.ledger.live <= m.ledger.committed.Keys && m.ledger.latest <= MAX_VERSION
  {
    hide AllDrafts, RootsOk, IndexOk, StoreOk, ManagerOk, ManagerMatches, ParentsOk, ValuesOk, VersionOk, HashOk;
  }

  lemma CommitOk(H: Hasher, a: Image, m: Meaning, v: Version, h: Hash, t: Option<Tree>, w: Written)
    requires StateOk(H, a, m) && v in a.pending && v in m.ledger.drafts
    requires CommitWrites(H, a, m, v, h, t, w)
    ensures StateOk(H, CommitImage(a, v, h, w), CommitMeaning(m, v, t))
  {
    hide CommitWrites, AllDrafts, AllVersions, RootsOk, IndexOk, Wellformed, StoreOk, ManagerOk, ManagerMatches, Sealed,
      CanSeal, HashSource, HasHash;
    var l := m.ledger;
    NextWellformed(l, Commit(v));
    AbortNumbers(l, v);
    CommitDrafts(H, a, m, v, h, t, w);
    CommitVersions(H, a, m, v, h, t, w);
    CommitStore(H, a, m, v, h, t, w);
    CommitFacts(H, a, m, v, h, t, w);
    TreesFit(H, a, m, v);
    CommitIndex(H, a.rootHashes, a.latestVer, l.live, l.top, m.trees, l.hashOf, v, h, t, HashSource(l, v, l.drafts[v]));
    CommitRoots(H, a, m, v, h, t, w);
    CommitManager(a.versions, a.pending.Keys, a.latest, a.current, v, h, a.pending[v].parent, l.live, l.aborted,
                  a.rootHashes);
    assert (a.pending - {v}).Keys == a.pending.Keys - {v};
    assert l.committed[v := Sealed(l.drafts[v])].Keys == l.committed.Keys + {v};
  }

  // ----- What a commit writes -----

  /** The nodes that the batch of a pending version holds. */
  ghost predicate BatchOf(H: Hasher, s: UpdaterState, v: Version, t: Option<Tree>, h: Hash, newNodes: NodeMap) {
    if s.currentRoot == NO_KEY then h == ZERO && newNodes == map[]
    else t.Some? && h == RootHash(H, t) && newNodes == s.writes && Acceptable(H, s.writes, s.stale, v)
  }

  lemma BatchGrows(H: Hasher, nodes: NodeMap, values: map<Hash, Bytes>, v: Version, s: UpdaterState,
                   shadow: map<NodeKey, Tree>,
                   puts: set<Bytes>, t: Option<Tree>, h: Hash, newNodes: NodeMap, newValues: map<Hash, Bytes>)
    requires v > 0 && PendingOk(H, nodes, values, v, s.writes, s.stale, shadow, puts)
    requires BatchOf(H, s, v, t, h, newNodes) && ValuesOf(newNodes, newValues)
    ensures var nodes' := nodes + StrippedAll(newNodes);
            && Grows(nodes, nodes', v)
            && forall key | key in nodes' && key !in nodes :: StoredNode(key, nodes'[key], values + newValues)
  {
    hide Shadows, AllValued, ValuesOf, Acceptable, Grows, WritesShadowed, RootHash, PendingOk;
    if newNodes == map[] {
      NothingGrows(nodes, v, s.writes, H, values, s.stale, shadow, puts);
      assert nodes + StrippedAll(newNodes) == nodes;
    } else {
      NodesGrow(H, nodes, values, v, s.writes, s.stale, shadow, puts);
      forall key | key in newNodes
        ensures StoredNode(key, Stripped(newNodes[key]), values + newValues)
      {
        AddedNode(H, nodes, values, v, s.writes, s.stale, shadow, puts, newValues, key);
      }
    }
  }

  lemma NothingGrows(nodes: NodeMap, v: Version, writes: NodeMap, H: Hasher, values: map<Hash, Bytes>,
                     stale: seq<NodeKey>, shadow: map<NodeKey, Tree>, puts: set<Bytes>)
    requires PendingOk(H, nodes, values, v, writes, stale, shadow, puts)
    ensures Grows(nodes, nodes, v)
  {
    hide WritesShadowed, AllValued;
  }

  lemma AddedNode(H: Hasher, nodes: NodeMap, values: map<Hash, Bytes>, v: Version, writes: NodeMap, stale: seq<NodeKey>,
                  shadow: map<NodeKey, Tree>, puts: set<Bytes>, newValues: map<Hash, Bytes>, key: NodeKey)
    requires v > 0 && PendingOk(H, nodes, values, v, writes, stale, shadow, puts) && Acceptable(H, writes, stale, v)
    requires ValuesOf(writes, newValues) && key in writes
    ensures StoredNode(key, Stripped(writes[key]), values + newValues)
  {
    hide DistinctHashes, CarriesValue, StoredOk, Placed;
    assert Shadows(H, key, writes[key], shadow[key], v);
    assert Valued(H, (nodes + writes)[key], values, puts);
  }

  lemma BatchValues(H: Hasher, nodes: NodeMap, values: map<Hash, Bytes>, v: Version, s: UpdaterState,
                    shadow: map<NodeKey, Tree>,
                    puts: set<Bytes>, t: Option<Tree>, h: Hash, newNodes: NodeMap, newValues: map<Hash, Bytes>)
    requires PendingOk(H, nodes, values, v, s.writes, s.stale, shadow, puts)
    requires BatchOf(H, s, v, t, h, newNodes) && ValuesOf(newNodes, newValues)
    requires ValuesHashed(H, values) && forall h | h in values :: values[h] in puts
    ensures ValuesHashed(H, values + newValues) && forall h | h in values + newValues :: (values + newValues)[h] in puts
  {
    hide StoredOk, WritesShadowed, Acceptable;
    forall h | h in newValues
      ensures H(newValues[h]) == h && newValues[h] in puts
    {
      var key :| CarriesValue(newNodes, key, h, newValues[h]);
      assert Valued(H, (nodes + s.writes)[key], values, puts);
    }
  }

  /** The tree a commit records: a version without operations has none. */
  ghost function Recorded(d: Draft, t: Option<Tree>): Option<Tree> {
    if d.ops == 0 then None else t
  }

  lemma BatchStands(H: Hasher, nodes: NodeMap, values: map<Hash, Bytes>, v: Version, p: PendingVersion<UpdaterState>,
                    d: Draft,
                    shadow: map<NodeKey, Tree>, puts: set<Bytes>, t: Option<Tree>, h: Hash, newNodes: NodeMap)
    requires PendingMatches(H, nodes, values, v, p, d, t, shadow, puts) && d.parent < v
    requires BatchOf(H, StateOf(p), v, t, h, newNodes)
    ensures VersionOk(H, nodes + StrippedAll(newNodes), v, Recorded(d, t), Sealed(d))
    ensures d.ops > 0 ==> h == RootHash(H, t)
  {
    hide Acceptable, PendingOk, RepOpt, StandsFor, Regular, VersionOk, RootHash, Sealed;
    var s := StateOf(p);
    if d.ops == 0 || s.currentRoot == NO_KEY {
      SealedEmpty(H, nodes, values, v, s.writes, s.stale, s.currentRoot, d, t, shadow, puts);
      assert newNodes == map[];
      assert nodes + StrippedAll(newNodes) == nodes;
      EmptyHash(H);
    } else {
      SealedVersion(H, nodes, values, v, s.writes, s.stale, d, t, shadow, puts);
    }
  }

  lemma EmptyHash(H: Hasher)
    ensures RootHash(H, None) == ZERO
  {
  }

  /** Version 0, and every version without operations, has no tree. */
  lemma EmptyTrees(H: Hasher, a: Image, m: Meaning, v: Version)
    requires StateOk(H, a, m) && v in m.ledger.committed && m.ledger.committed[v].ops == 0
    ensures v in m.trees && m.trees[v] == None
  {
    hide AllDrafts, RootsOk, IndexOk, StoreOk, ManagerOk, ManagerMatches, ParentsOk, NumbersOk, RepOpt, Shows,
      FromPuts, HashesOk, DeepOpt;
    var e, t := m.ledger.committed[v], m.trees[v];
    assert VersionOk(H, a.nodes, v, t, e);
    ShowsEmpty(H, t, e.contents);
  }

  lemma ZeroIsEmpty(l: Ledger)
    requires Wellformed(l)
    ensures 0 in l.committed && l.committed[0].ops == 0 && 0 in l.hashOf && l.hashOf[0] == 0 && 0 in l.live
  {
    hide ParentsOk, ValuesOk;
  }

  /** A draft without operations stands for its parent's tree. */
  lemma DraftTree(H: Hasher, a: Image, m: Meaning, v: Version)
    requires StateOk(H, a, m) && v in m.ledger.drafts && m.ledger.drafts[v].ops == 0
    ensures v in a.pending && v in m.drafts
    ensures StateOf(a.pending[v]).currentRoot == RootNodeKey(m.ledger.drafts[v].parent)
    ensures StateOf(a.pending[v]).writes == map[]
    ensures m.ledger.drafts[v].parent in m.trees && m.ledger.drafts[v].parent in m.ledger.committed
    ensures m.drafts[v] == m.trees[m.ledger.drafts[v].parent]
  {
    hide StateOk, PendingOk, Rep, StandsFor, Regular;
    DraftsFacts(H, a, m, v);
    var p := m.ledger.drafts[v].parent;
    ParentVersion(H, a, m, v);
    assert a.nodes + map[] == a.nodes;
    RootUnique(H, a.nodes, v, 0, RootNodeKey(p), m.drafts[v], m.trees[p]);
  }

  lemma ParentVersion(H: Hasher, a: Image, m: Meaning, v: Version)
    requires StateOk(H, a, m) && v in m.ledger.drafts
    ensures var p := m.ledger.drafts[v].parent;
            p in m.trees && p in m.ledger.committed && VersionOk(H, a.nodes, p, m.trees[p], m.ledger.committed[p])
  {
    hide AllDrafts, RootsOk, IndexOk, StoreOk, ManagerOk, ManagerMatches, VersionOk, NumbersOk, ValuesOk, HashesOk;
    assert ParentOf(m.ledger.drafts[v].parent, v, m.ledger.committed.Keys);
  }

  /** The hash of a batch is that of the tree which the ledger names. */
  lemma BatchHash(H: Hasher, a: Image, m: Meaning, v: Version, h: Hash, newNodes: NodeMap)
    requires v in a.pending && v in m.ledger.drafts && v in m.drafts
    requires m.ledger.drafts[v].touched && BatchOf(H, StateOf(a.pending[v]), v, m.drafts[v], h, newNodes)
    requires m.ledger.drafts[v].ops > 0 ==> h == RootHash(H, m.drafts[v])
    requires StateOk(H, a, m)
    ensures CanSeal(m.ledger.drafts[v])
    ensures var d := m.ledger.drafts[v];
            HasHash(H, m.trees[v := Recorded(d, m.drafts[v])], HashSource(m.ledger, v, d), h)
  {
    hide *;
    var d := m.ledger.drafts[v];
    SourceIs(m.ledger, v, d);
    RecordedIs(d, m.drafts[v]);
    if d.ops == 0 {
      DraftTree(H, a, m, v);
      TreesFit(H, a, m, v);
      WellformedOf(H, a, m);
      ZeroIsEmpty(m.ledger);
      EmptyTrees(H, a, m, 0);
      EmptyHash(H);
      AbortNumbers(m.ledger, v);
      BatchRoot(H, StateOf(a.pending[v]), v, m.drafts[v], h, newNodes, d.parent);
      if d.parent > 0 { OnlyWithOperations(H, a, m, v, d); }
    }
    Sealable(d);
    ItHasHash(H, m.trees[v := Recorded(d, m.drafts[v])], HashSource(m.ledger, v, d));
  }

  lemma RecordedIs(d: Draft, t: Option<Tree>)
    ensures Recorded(d, t) == if d.ops == 0 then None else t
  {
  }

  lemma Sealable(d: Draft)
    ensures CanSeal(d) <==> d.ops > 0 || !d.touched || d.parent == 0 || d.contents != map[]
  {
  }

  lemma BatchRoot(H: Hasher, s: UpdaterState, v: Version, t: Option<Tree>, h: Hash, newNodes: NodeMap, parent: Version)
    requires BatchOf(H, s, v, t, h, newNodes) && s.currentRoot == RootNodeKey(parent)
    ensures parent == 0 ==> h == ZERO
    ensures parent > 0 ==> t.Some? && h == RootHash(H, t)
  {
    hide RootHash, Acceptable;
  }

  lemma SourceIs(l: Ledger, v: Version, d: Draft)
    ensures HashSource(l, v, d) ==
            if d.ops > 0 then v
            else if (d.touched || d.parent in l.live) && d.parent in l.hashOf then l.hashOf[d.parent] else 0
  {
  }

  lemma WellformedOf(H: Hasher, a: Image, m: Meaning)
    requires StateOk(H, a, m)
    ensures Wellformed(m.ledger)
  {
    hide Wellformed;
  }

  /** A draft without operations and with a tree has a parent with operations, whose hash is its own. */
  lemma OnlyWithOperations(H: Hasher, a: Image, m: Meaning, v: Version, d: Draft)
    requires StateOk(H, a, m) && v in m.ledger.drafts && m.ledger.drafts[v] == d && d.ops == 0
    requires d.parent in m.trees && d.parent in m.ledger.committed && m.trees[d.parent].Some?
    ensures d.contents != map[] && d.parent in m.ledger.hashOf && m.ledger.hashOf[d.parent] == d.parent
  {
    hide StateOk, HashOk;
    if m.ledger.committed[d.parent].ops == 0 { EmptyTrees(H, a, m, d.parent); }
    WellformedOf(H, a, m);
    OwnHash(m.ledger, d.parent);
    DraftTree(H, a, m, v);
    DraftsFacts(H, a, m, v);
    DraftFacts(H, a.nodes, a.values, v, a.pending[v], d, m.drafts[v], m.shadows[v], m.ledger.puts, m.ledger.puts);
    TreeIsNotEmpty(H, m.drafts[v], d.contents, d.deep);
  }

  lemma TreeIsNotEmpty(H: Hasher, t: Option<Tree>, m: Contents, deep: bool)
    requires StandsFor(H, t, m, deep)
    ensures t.Some? <==> m != map[]
  {
    hide DeepOpt, Shows, PlacedOpt;
    ShowsEmpty(H, t, m);
  }

  lemma BatchWrites(H: Hasher, a: Image, m: Meaning, v: Version, h: Hash, newNodes: NodeMap,
                    newValues: map<Hash, Bytes>)
    requires StateOk(H, a, m) && v in a.pending && v in m.ledger.drafts && v in m.drafts && m.ledger.drafts[v].touched
    requires BatchOf(H, StateOf(a.pending[v]), v, m.drafts[v], h, newNodes) && ValuesOf(newNodes, newValues)
    ensures CommitWrites(H, a, m, v, h, Recorded(m.ledger.drafts[v], m.drafts[v]),
                         Written(a.nodes + StrippedAll(newNodes), a.values + newValues, a.roots[v := h]))
  {
    hide StateOk, PendingMatches, PendingOk, BatchOf, ValuesOf, VersionOk, RepOpt, Regular, StandsFor, Grows,
      StoredNode, RootHash, StateOf;
    DraftsFacts(H, a, m, v);
    StoredValues(H, a, m);
    var p, d, l := a.pending[v], m.ledger.drafts[v], m.ledger;
    DraftFacts(H, a.nodes, a.values, v, p, d, m.drafts[v], m.shadows[v], l.puts, l.puts);
    BatchGrows(H, a.nodes, a.values, v, StateOf(p), m.shadows[v], l.puts, m.drafts[v], h, newNodes, newValues);
    BatchValues(H, a.nodes, a.values, v, StateOf(p), m.shadows[v], l.puts, m.drafts[v], h, newNodes, newValues);
    BatchStands(H, a.nodes, a.values, v, p, d, m.shadows[v], l.puts, m.drafts[v], h, newNodes);
    BatchHash(H, a, m, v, h, newNodes);
  }

  lemma StoredValues(H: Hasher, a: Image, m: Meaning)
    requires StateOk(H, a, m)
    ensures ValuesHashed(H, a.values) && forall h | h in a.values :: a.values[h] in m.ledger.puts
  {
    hide Wellformed, AllVersions, AllDrafts, IndexOk, RootsOk, ManagerOk, ManagerMatches;
  }

  /** The hash that a version without updater takes from its parent, if that is still indexed. */
  lemma ParentHash(H: Hasher, a: Image, m: Meaning, v: Version, h: Hash)
    requires v in m.ledger.drafts && m.ledger.drafts[v].ops == 0 && !m.ledger.drafts[v].touched
    requires h == HashOfParent(a, m.ledger.drafts[v].parent)
    requires StateOk(H, a, m)
    ensures HasHash(H, m.trees, HashSource(m.ledger, v, m.ledger.drafts[v]), h)
  {
    hide *;
    var p := m.ledger.drafts[v].parent;
    SourceIs(m.ledger, v, m.ledger.drafts[v]);
    HashOfParentIs(a, p);
    TreesFit(H, a, m, v);
    WellformedOf(H, a, m);
    ZeroIsEmpty(m.ledger);
    EmptyTrees(H, a, m, 0);
    EmptyHash(H);
    IndexedHash(H, a, m, p);
    var w := HashSource(m.ledger, v, m.ledger.drafts[v]);
    assert w in m.trees && h == RootHash(H, m.trees[w]);
    ItHasHash(H, m.trees, w);
  }

  /** What a version without updater records: its parent's hash, if that is still indexed. */
  function HashOfParent(a: Image, p: Version): Hash {
    if p > 0 && p in a.rootHashes then a.rootHashes[p] else ZERO
  }

  lemma HashOfParentIs(a: Image, p: Version)
    ensures HashOfParent(a, p) == if p > 0 && p in a.rootHashes then a.rootHashes[p] else ZERO
  {
  }

  /** There is a tree for `w`, and `h` is its hash. */
  ghost predicate HasHash(H: Hasher, trees: TreeMapping, w: Version, h: Hash) {
    w in trees && h == RootHash(H, trees[w])
  }

  lemma ItHasHash(H: Hasher, trees: TreeMapping, w: Version)
    requires w in trees
    ensures HasHash(H, trees, w, RootHash(H, trees[w]))
  {
  }

  /** The index has exactly the live versions, 0 perhaps not, each with the hash that the ledger names. */
  lemma IndexedHash(H: Hasher, a: Image, m: Meaning, v: Version)
    requires StateOk(H, a, m)
    ensures v > 0 ==> (v in a.rootHashes <==> v in m.ledger.live)
    ensures v in a.rootHashes ==>
              v in m.ledger.hashOf && m.ledger.hashOf[v] in m.trees &&
              a.rootHashes[v] == RootHash(H, m.trees[m.ledger.hashOf[v]])
  {
    hide AllVersions, AllDrafts, RootsOk, StoreOk, ManagerOk, ManagerMatches, Wellformed, RootHash;
  }

  /** A version without updater is committed as metadata only. */
  lemma NoWrites(H: Hasher, a: Image, m: Meaning, v: Version, h: Hash)
    requires v in a.pending && v in m.ledger.drafts && a.pending[v].updater.None?
    requires h == HashOfParent(a, a.pending[v].parent)
    requires StateOk(H, a, m)
    ensures CommitWrites(H, a, m, v, h, None, Written(a.nodes, a.values, a.roots)) && m.ledger.drafts[v].ops == 0
  {
    hide StateOk, DraftOk, VersionOk, Grows, RootHash, HashSource, PendingOk, Wellformed, RepOpt, StandsFor;
    DraftsFacts(H, a, m, v);
    StoredValues(H, a, m);
    var d, l := m.ledger.drafts[v], m.ledger;
    WellformedOf(H, a, m);
    DraftsTouched(l, v);
    EmptyDraft(H, a, m, v);
    ParentHash(H, a, m, v, h);
    AbortNumbers(l, v);
    TreesFit(H, a, m, v);
    assert HashSource(l, v, d) != v;
  }

  lemma EmptyDraft(H: Hasher, a: Image, m: Meaning, v: Version)
    requires StateOk(H, a, m) && v in a.pending && v in m.ledger.drafts && m.ledger.drafts[v].ops == 0
    ensures Grows(a.nodes, a.nodes, v) && VersionOk(H, a.nodes, v, None, Sealed(m.ledger.drafts[v]))
  {
    hide StateOk, PendingOk, VersionOk, RepOpt, Regular, StandsFor, Grows;
    DraftsFacts(H, a, m, v);
    var d, s, l := m.ledger.drafts[v], StateOf(a.pending[v]), m.ledger;
    NothingGrows(a.nodes, v, s.writes, H, a.values, s.stale, m.shadows[v], l.puts);
    SealedEmpty(H, a.nodes, a.values, v, s.writes, s.stale, s.currentRoot, d, m.drafts[v], m.shadows[v], l.puts);
  }

  lemma DraftsTouched(l: Ledger, v: Version)
    requires Wellformed(l) && v in l.drafts
    ensures l.drafts[v].ops > 0 ==> l.drafts[v].touched
  {
    hide NumbersOk, ParentsOk, ValuesOk, HashOk;
  }

  /** Validation cannot stop a deep version with operations, unless two strings hashed for it collide. */
  lemma DeepIsAccepted(H: Hasher, a: Image, m: Meaning, v: Version)
    requires StateOk(H, a, m) && v in a.pending && v in m.ledger.drafts && v in m.shadows && v in m.drafts
    requires m.ledger.drafts[v].deep && m.ledger.drafts[v].ops > 0
    requires CollisionFree(H, StringsOf(H, m.ledger.drafts[v].past))
    ensures var s := StateOf(a.pending[v]);
            && Acceptable(H, s.writes, s.stale, v) && (s.currentRoot != NO_KEY ==> s.currentRoot in a.nodes + s.writes)
  {
    hide StateOk, WritesShadowed, RepOpt, Regular, StandsFor, RootHash, CollisionFree, StringsOf, Acceptable,
      StoredOk, AllValued, StateOf;
    DraftsFacts(H, a, m, v);
    var p, d, l := a.pending[v], m.ledger.drafts[v], m.ledger;
    DraftFacts(H, a.nodes, a.values, v, p, d, m.drafts[v], m.shadows[v], l.puts, l.puts);
    var s := StateOf(p);
    RegularAccepted(H, s.writes, m.shadows[v], s.stale, v, StringsOf(H, d.past));
    RootIsThere(H, a.nodes, a.values, v, p, d, m.drafts[v], m.shadows[v], l.puts);
  }

  /** The root of a draft with operations is there, unless the draft is empty. */
  lemma RootIsThere(H: Hasher, nodes: NodeMap, values: map<Hash, Bytes>, v: Version, p: PendingVersion<UpdaterState>,
                    d: Draft, t: Option<Tree>, shadow: map<NodeKey, Tree>, puts: set<Bytes>)
    requires PendingMatches(H, nodes, values, v, p, d, t, shadow, puts) && d.ops > 0
    ensures StateOf(p).currentRoot != NO_KEY ==> StateOf(p).currentRoot in nodes + StateOf(p).writes
  {
  }

  /** Exactly when a commit succeeds: validation accepts what the updater has written, if it has written anything. */
  ghost predicate Committable(H: Hasher, a: Image, m: Meaning, v: Version) {
    v in a.pending && v in m.drafts &&
    var s := StateOf(a.pending[v]);
    a.pending[v].updater.None? || s.currentRoot == NO_KEY || (m.drafts[v].Some? && Acceptable(H, s.writes, s.stale, v))
  }

  /** A version without operations can be committed exactly if the ledger says so. */
  lemma EmptyIsCommittable(H: Hasher, a: Image, m: Meaning, v: Version)
    requires StateOk(H, a, m) && v in m.ledger.drafts && m.ledger.drafts[v].ops == 0
    ensures Committable(H, a, m, v) <==> CanSeal(m.ledger.drafts[v])
  {
    hide StateOk, PendingOk, RepOpt, Regular, StandsFor, Acceptable, DraftOk;
    DraftTree(H, a, m, v);
    DraftsFacts(H, a, m, v);
    var p, d, l := a.pending[v], m.ledger.drafts[v], m.ledger;
    DraftFacts(H, a.nodes, a.values, v, p, d, m.drafts[v], m.shadows[v], l.puts, l.puts);
    TreeIsNotEmpty(H, m.drafts[v], d.contents, d.deep);
    NothingToRefuse(H, a.nodes, a.values, v, StateOf(p).stale, m.shadows[v], l.puts);
  }

  lemma NothingToRefuse(H: Hasher, nodes: NodeMap, values: map<Hash, Bytes>, v: Version, stale: seq<NodeKey>,
                        shadow: map<NodeKey, Tree>, puts: set<Bytes>)
    requires PendingOk(H, nodes, values, v, map[], stale, shadow, puts)
    ensures Acceptable(H, map[], stale, v)
  {
    hide StoredOk, AllValued;
  }

  lemma DeepIsCommittable(H: Hasher, a: Image, m: Meaning, v: Version)
    requires StateOk(H, a, m) && v in m.ledger.drafts && v in m.shadows
    requires m.ledger.drafts[v].deep && m.ledger.drafts[v].ops > 0
    requires CollisionFree(H, StringsOf(H, m.ledger.drafts[v].past))
    ensures Committable(H, a, m, v)
  {
    hide StateOk, PendingOk, RepOpt, Regular, StandsFor, CollisionFree, StringsOf, Acceptable;
    DraftsFacts(H, a, m, v);
    DeepIsAccepted(H, a, m, v);
  }

  /** A leaf of an older version has been lifted in the pending writes of `v`. */
  ghost predicate Lifted(s: UpdaterState, v: Version) {
    s.currentRoot != NO_KEY && exists key :: key in s.writes && s.writes[key].version != v
  }

  lemma LiftedIsRefused(H: Hasher, a: Image, m: Meaning, v: Version)
    requires v in a.pending && a.pending[v].updater.Some? && Lifted(StateOf(a.pending[v]), v)
    ensures !Committable(H, a, m, v)
  {
    hide DistinctHashes;
  }

  /** Every stored node of a valid state is as a commit writes it. */
  lemma StateFits(H: Hasher, a: Image, m: Meaning)
    requires StateOk(H, a, m)
    ensures AllStored(a.nodes, a.values)
  {
    hide Wellformed, AllVersions, AllDrafts, IndexOk, RootsOk, StoredNode, ManagerOk, ManagerMatches;
  }

  /** The keys of a batch can be encoded. */
  lemma BatchFits(H: Hasher, a: Image, m: Meaning, v: Version, h: Hash, newNodes: NodeMap)
    requires StateOk(H, a, m) && v in a.pending && v in m.ledger.drafts && v in m.drafts
    requires BatchOf(H, StateOf(a.pending[v]), v, m.drafts[v], h, newNodes)
    ensures forall key | key in newNodes :: |key.path| <= MAX_DEPTH
  {
    hide StateOk, RepOpt, Regular, StandsFor, PendingMatches, StateOf, StoredOk, AllValued, Shadows;
    DraftsFacts(H, a, m, v);
    var p, l := a.pending[v], m.ledger;
    DraftFacts(H, a.nodes, a.values, v, p, l.drafts[v], m.drafts[v], m.shadows[v], l.puts, l.puts);
    forall key | key in newNodes
      ensures |key.path| <= MAX_DEPTH
    {
      ShadowDepth(H, key, newNodes[key], m.shadows[v][key], v);
    }
  }

  lemma ShadowDepth(H: Hasher, key: NodeKey, d: NodeData, t: Tree, v: Version)
    requires Shadows(H, key, d, t, v)
    ensures |key.path| <= MAX_DEPTH
  {
  }
}
