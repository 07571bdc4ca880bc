/**
 Opening a tree over storage that already holds versions (pkg/tree/tree.go).
 */
module Recovery {
  import opened Types
  import opened Merkle
  import opened Nodes
  import opened NodeStore
  import opened ByteStore
  import opened Contents
  import opened Reader
  import opened Versions
  import opened TreeState
  import opened TreeSteps
  import opened Ledger

  /** The largest of some version numbers, 0 if there are none. */
  ghost predicate Newest(versions: set<Version>, top: Version) {
    (top == 0 || top in versions) && forall v | v in versions :: v <= top
  }

  /**
   What the ledger is after a restart: the versions whose root was stored, and the empty version 0.
   Drafts, aborted versions and the parents are forgotten; collected versions are back.
   */
  ghost function Recovered(l: Ledger, top: Version): Ledger
    requires HashesOk(l) && 0 in l.committed
  {
    var kept := l.stored + {0};
    Ledger(top, top, map[], map v | v in kept :: l.committed[v].(parent := 0), kept, {}, l.puts,
           map v | v in kept :: l.hashOf[v], l.stored)
  }

  /**
   Exactly the versions in which an operation was tried are restored, and version 0, each with its
   map and its root hash, every version with a successful operation among them; new numbers are
   above them all.
   */
  ghost predicate Restores(l: Ledger, r: Ledger) {
    r.committed.Keys == r.live == l.stored + {0} && r.drafts == map[] && r.puts == l.puts && r.stored == l.stored &&
    (forall v | v in r.committed :: v <= r.latest && v in l.committed && SameVersion(r.committed[v], l.committed[v])) &&
    (forall v | v in r.committed :: v in r.hashOf && v in l.hashOf && r.hashOf[v] == l.hashOf[v]) &&
    (forall v | v in l.committed && l.committed[v].ops > 0 :: v in r.committed)
  }

  ghost predicate SameVersion(a: Entry, b: Entry) {
    a.contents == b.contents && a.deep == b.deep && a.ops == b.ops
  }

  lemma RecoveredVersions(H: Hasher, a: Image, m: Meaning, top: Version)
    requires StateOk(H, a, m) && Newest(a.roots.Keys, top)
    ensures HashesOk(m.ledger) && 0 in m.ledger.committed && Restores(m.ledger, Recovered(m.ledger, top))
  {
    hide StateOk, HashOk;
    StoredFacts(H, a, m);
  }

  function VersionRecords(roots: map<Version, Hash>): VersionMap {
    map v | v in roots.Keys + {0} ::
      if v in roots then VersionInfo(roots[v], if v == 0 then 0 else v - 1, Committed)
        else VersionInfo(ZERO, 0, Committed)
  }

  /**
   What a restart makes of the stored root hashes.  The index holds them, and the zero hash of
   version 0 only if there are none.  The records of the versions have them too, and each takes the
   number before its own for its parent, whatever its parent was.
   */
  ghost predicate Restarted(versions: VersionMap, rootHashes: map<Version, Hash>, roots: map<Version, Hash>) {
    rootHashes == (if roots == map[] then map[0 := ZERO] else roots) &&
    versions.Keys == roots.Keys + {0} && versions[0] == VersionInfo(ZERO, 0, Committed) &&
    forall v | v in roots && v > 0 :: versions[v] == VersionInfo(roots[v], v - 1, Committed)
  }

  lemma RecoveredTop(l: Ledger, top: Version)
    requires HashesOk(l) && 0 in l.committed
    ensures Recovered(l, top).top == top
  {
    hide HashOk;
  }

  lemma RecordsAre(roots: map<Version, Hash>)
    requires 0 !in roots
    ensures Restarted(VersionRecords(roots), if roots == map[] then map[0 := ZERO] else roots, roots)
  {
  }

  function ReopenedImage(a: Image, top: Version): Image {
    var index := if a.roots == map[] then map[0 := ZERO] else a.roots;
    Image(a.nodes, a.values, a.roots, map[], VersionRecords(a.roots), top, top, index, top)
  }

  ghost function RecoveredMeaning(m: Meaning, top: Version): Meaning
    requires HashesOk(m.ledger) && 0 in m.ledger.committed && m.trees.Keys == m.ledger.committed.Keys
  {
    Meaning(Recovered(m.ledger, top), map v | v in m.ledger.stored + {0} :: m.trees[v], map[], map[])
  }

  lemma StoredFacts(H: Hasher, a: Image, m: Meaning)
    requires StateOk(H, a, m)
    ensures a.roots.Keys == m.ledger.stored && HashesOk(m.ledger) && 0 in m.ledger.committed && 0 !in a.roots
    ensures m.trees.Keys == m.ledger.committed.Keys
    ensures forall v | v in a.roots :: v <= MAX_VERSION
  {
    hide StoreOk, AllVersions, AllDrafts, IndexOk, ManagerOk, ManagerMatches, ParentsOk, ValuesOk, RootHash, HashOk,
      HashesMatch;
    TreesFit(H, a, m, 0);
  }

  lemma RecoveredWellformed(l: Ledger, top: Version)
    requires Wellformed(l) && 0 in l.committed && Newest(l.stored, top) && top <= MAX_VERSION
    ensures Wellformed(Recovered(l, top))
  {
    hide ParentsOk, NumbersOk, FromPuts, HashesOk;
    RecoveredNumbers(l, top);
    RecoveredParents(l, top);
    RecoveredHashes(l, top);
    StoredAreCommitted(l);
  }

  lemma StoredAreCommitted(l: Ledger)
    requires HashesOk(l)
    ensures l.stored <= l.committed.Keys
  {
  }

  lemma RecoveredNumbers(l: Ledger, top: Version)
    requires HashesOk(l) && 0 in l.committed && Newest(l.stored, top) && top <= MAX_VERSION
    ensures NumbersOk(Recovered(l, top))
  {
    hide HashOk;
  }

  lemma RecoveredParents(l: Ledger, top: Version)
    requires HashesOk(l) && 0 in l.committed
    ensures ParentsOk(Recovered(l, top))
  {
    hide HashOk;
  }

  lemma RecoveredHashes(l: Ledger, top: Version)
    requires HashesOk(l) && 0 in l.committed
    ensures HashesOk(Recovered(l, top))
  {
    hide HashOk;
    var r := Recovered(l, top);
    forall v | v in r.committed
      ensures HashOk(r.hashOf[v], v, r.committed)
    {
      assert HashOk(l.hashOf[v], v, l.committed);
      HashKept(l, r, v);
    }
  }

  lemma HashKept(l: Ledger, r: Ledger, v: Version)
    requires v in l.committed && v in l.hashOf && HashOk(l.hashOf[v], v, l.committed)
    requires forall w | w in l.committed && l.committed[w].ops > 0 :: w in l.stored
    requires r.committed == map w | w in l.stored + {0} && w in l.committed :: l.committed[w].(parent := 0)
    requires v in r.committed && 0 in l.committed
    ensures HashOk(l.hashOf[v], v, r.committed)
  {
  }

  /** Reopening restores a valid state from storage alone. */
  lemma ReopenOk(H: Hasher, a: Image, m: Meaning, top: Version)
    requires StateOk(H, a, m) && Newest(a.roots.Keys, top)
    requires HashesOk(m.ledger) && 0 in m.ledger.committed && m.trees.Keys == m.ledger.committed.Keys
    ensures StateOk(H, ReopenedImage(a, top), RecoveredMeaning(m, top))
  {
    hide StoreOk, AllVersions, AllDrafts, IndexOk, RootsOk, ManagerOk, ManagerMatches, Wellformed, Newest,
      VersionRecords, HashesOk;
    StoredFacts(H, a, m);
    TopIsSmall(a.roots, top);
    RecoveredWellformed(m.ledger, top);
    ReopenedVersions(H, a, m, top);
    ReopenedStore(H, a, m, top);
    ZeroIsEmpty(m.ledger);
    EmptyTrees(H, a, m, 0);
    ReopenedIndex(H, a, m, top);
    ReopenedManager(a.roots, top);
    NoDrafts(H, a.nodes, a.values, m.ledger.puts);
    assert ReopenedImage(a, top).pending.Keys == {};
  }

  lemma TopIsSmall(roots: map<Version, Hash>, top: Version)
    requires Newest(roots.Keys, top) && forall v | v in roots :: v <= MAX_VERSION
    ensures top <= MAX_VERSION
  {
  }

  lemma NoDrafts(H: Hasher, nodes: NodeMap, values: map<Hash, Bytes>, puts: set<Bytes>)
    ensures AllDrafts(H, nodes, values, map[], map[], puts, map[], map[])
  {
  }

  lemma ReopenedVersions(H: Hasher, a: Image, m: Meaning, top: Version)
    requires AllVersions(H, a.nodes, m.ledger.committed, m.trees) && HashesOk(m.ledger) && 0 in m.ledger.committed
    ensures var n := RecoveredMeaning(m, top); AllVersions(H, a.nodes, n.ledger.committed, n.trees)
  {
    hide RepOpt, StandsFor, HashOk;
    forall v | v in m.ledger.stored + {0}
      ensures VersionOk(H, a.nodes, v, m.trees[v], m.ledger.committed[v].(parent := 0))
    {
      assert VersionOk(H, a.nodes, v, m.trees[v], m.ledger.committed[v]);
    }
  }

  lemma ReopenedStore(H: Hasher, a: Image, m: Meaning, top: Version)
    requires StoreOk(H, a.nodes, a.values, m.ledger.committed.Keys, m.ledger.puts)
    requires RootsOk(H, a.roots, a.nodes, m.ledger.stored, m.trees, m.ledger.hashOf)
    requires HashesOk(m.ledger) && 0 in m.ledger.committed && m.trees.Keys == m.ledger.committed.Keys
    ensures var n := RecoveredMeaning(m, top);
            && StoreOk(H, a.nodes, a.values, n.ledger.committed.Keys, n.ledger.puts)
            && RootsOk(H, a.roots, a.nodes, n.ledger.stored, n.trees, n.ledger.hashOf)
  {
    hide RootHash, ValuesHashed, HashesMatch, HashOk;
    StoredHashes(H, a, m, top);
  }

  /** The hashes in storage are of trees that are still there after the restart. */
  lemma StoredHashes(H: Hasher, a: Image, m: Meaning, top: Version)
    requires RootsOk(H, a.roots, a.nodes, m.ledger.stored, m.trees, m.ledger.hashOf)
    requires HashesOk(m.ledger) && 0 in m.ledger.committed && m.trees.Keys == m.ledger.committed.Keys
    ensures var n := RecoveredMeaning(m, top); HashesMatch(H, a.roots, n.trees, n.ledger.hashOf)
  {
    hide RootHash, HashOk, HashesOk;
    StoredAreCommitted(m.ledger);
    forall v | v in a.roots
      ensures v in m.ledger.hashOf && m.ledger.hashOf[v] in m.ledger.stored + {0}
    {
      SourceIsStored(m.ledger, v);
    }
  }

  lemma SourceIsStored(l: Ledger, v: Version)
    requires HashesOk(l) && v in l.committed
    ensures v in l.hashOf && l.hashOf[v] in l.stored + {0}
  {
    assert HashOk(l.hashOf[v], v, l.committed);
  }

  lemma ReopenedIndex(H: Hasher, a: Image, m: Meaning, top: Version)
    requires RootsOk(H, a.roots, a.nodes, m.ledger.stored, m.trees, m.ledger.hashOf)
    requires HashesOk(m.ledger) && 0 in m.ledger.committed && m.trees.Keys == m.ledger.committed.Keys
    requires m.ledger.hashOf[0] == 0 && m.trees[0] == None
    ensures var n := RecoveredMeaning(m, top);
            IndexOk(H, ReopenedImage(a, top).rootHashes, top, n.ledger.live, top, n.trees, n.ledger.hashOf)
  {
    hide VersionRecords, HashOk;
    StoredHashes(H, a, m, top);
  }

  lemma ReopenedManager(roots: map<Version, Hash>, top: Version)
    requires Newest(roots.Keys, top) && top <= MAX_VERSION
    ensures ManagerOk(VersionRecords(roots), {}, top, top)
    ensures ManagerMatches(VersionRecords(roots), roots.Keys + {0}, {},
                           if roots == map[] then map[0 := ZERO] else roots)
  {
  }
}
