/**
 Whole runs of the versioned tree, from the first step to a read, and what a root hash and a proof
 say about the versions of a run (pkg/tree/tree.go, pkg/tree/reader.go, pkg/proof).
 */
module Runs {
  import opened Types
  import opened Merkle
  import opened TreeMap
  import opened Nodes
  import opened NodeStore
  import opened ByteStore
  import opened Contents
  import opened Reader
  import opened Versions
  import opened TreeState
  import opened TreeSteps
  import opened Validation
  import opened Database
  import opened Proofs
  import opened Generator
  import opened Recovery
  import opened Retention
  import opened UpdateSteps
  import opened Updater
  import L = Ledger

  /** One step; `Collect` names the expired versions. */
  method DoStep(tree: VersionedTree, s: L.Step, ghost keys: set<Key>) returns (ghost done: L.Step)
    requires tree.Valid() && L.AllDeep(tree.Ledger(), keys) && L.Tame(s, keys)
    modifies tree, tree.vm`pending, tree.vm`versions, tree.vm`latestVersion, tree.vm`committedVersion, tree.source
    ensures tree.Valid() && L.AllDeep(tree.Ledger(), keys)
    ensures Follows(old(tree.Ledger()), tree.vm.policy, tree.vm.minVersionsToKeep, s, done)
    ensures L.SmoothStep(tree.H, old(tree.Ledger()), s) ==> tree.Ledger() == L.Next(old(tree.Ledger()), done)
  {
    hide StateOk, NodeSource.Sound, Lands, L.Apply, L.Sealed, L.Alone, CollisionFree, StringsOf, CountRetention,
      TimeRetention, Lifted;
    done := s;
    ghost var l := tree.Ledger();
    L.NextDeep(l, s, keys);
    match s
    case Begin =>
      var _ := tree.BeginVersion();
    case Put(v, key, value) =>
      if v in l.drafts { DeepLands(tree.H, tree.Now(), tree.meaning, v, key); }
      var _ := tree.PutVersioned(v, key, value);
    case Delete(v, key) =>
      var _ := tree.DeleteVersioned(v, key);
    case Commit(v) =>
      var _ := tree.CommitAfter(v);
    case Abort(v) =>
      var _ := tree.AbortVersion(v);
    case Collect(expired) =>
      var r := tree.CollectVersionGarbage(expired);
      done := L.Collect(if r.Removed? then Elements(r.versions) else {});
      L.NextDeep(l, done, keys);
      NothingGone(l);
  }

  /**
   Refinement of whole runs.  Whatever the interleaving of steps, the tree does what the ledger
   says, provided that at every commit of a version with operations no two of the strings hashed for
   the maps it has been collide.  Collections take what the policy allows.  And whatever was
   loaded, committed or evicted, every cached node is what the bytes under its key decode to.
   */
  method Drive(tree: VersionedTree, steps: seq<L.Step>, ghost keys: set<Key>) returns (ghost done: seq<L.Step>)
    requires tree.Valid() && L.AllDeep(tree.Ledger(), keys) && L.TameRun(steps, keys)
    modifies tree, tree.vm`pending, tree.vm`versions, tree.vm`latestVersion, tree.vm`committedVersion, tree.source
    ensures tree.Valid() && L.AllDeep(tree.Ledger(), keys)
    ensures Decoded(tree.source.store, tree.source.entries)
    ensures L.MatchAll(steps, done)
    ensures L.Smooth(tree.H, old(tree.Ledger()), steps) ==>
              && tree.Ledger() == L.Run(old(tree.Ledger()), done)
              && FollowsAll(old(tree.Ledger()), tree.vm.policy, tree.vm.minVersionsToKeep, steps, done)
    decreases |steps|
  {
    hide StateOk, NodeSource.Sound, L.AllDeep, L.Tame, L.Next, L.Run, L.SmoothStep, L.Smooth, Allowed,
      VersionedTree.Valid, Decoded;
    if steps == [] {
      done := [];
      CacheIsDecoded(tree);
      EmptyRun(tree.Ledger());
      return;
    }
    ghost var l := tree.Ledger();
    ghost var first := DoStep(tree, steps[0], keys);
    ghost var rest := Drive(tree, steps[1..], keys);
    done := [first] + rest;
    L.RunUnfold(l, done);
    assert done[1..] == rest;
    MatchMore(steps, first, rest);
    if L.Smooth(tree.H, l, steps) { SmoothRest(tree.H, l, steps, first); }
  }

  lemma MatchMore(steps: seq<L.Step>, first: L.Step, rest: seq<L.Step>)
    requires steps != [] && L.Matches(steps[0], first) && L.MatchAll(steps[1..], rest)
    ensures L.MatchAll(steps, [first] + rest)
  {
    hide L.Matches;
    forall i | 0 <= i < |steps|
      ensures L.Matches(steps[i], ([first] + rest)[i])
    {
      assert i > 0 ==> L.Matches(steps[1..][i - 1], rest[i - 1]);
    }
  }

  lemma SmoothRest(H: Hasher, l: L.Ledger, steps: seq<L.Step>, first: L.Step)
    requires steps != [] && L.Smooth(H, l, steps) && L.Matches(steps[0], first)
    ensures L.SmoothStep(H, l, steps[0]) && L.Smooth(H, L.Next(l, first), steps[1..])
  {
    hide L.Next, L.Smooth, L.SmoothStep, L.Matches, L.MatchAll;
    L.SmoothUnfold(H, l, steps);
    L.NextSameButLive(l, l, steps[0], first);
    L.SelfMatch(steps[1..]);
    L.SmoothSame(H, L.Next(l, steps[0]), L.Next(l, first), steps[1..], steps[1..]);
  }

  lemma CacheIsDecoded(tree: VersionedTree)
    requires tree.Valid()
    ensures Decoded(tree.source.store, tree.source.entries)
  {
    hide StateOk, Encodes, AllStored, Cached, Decoded;
    tree.source.CachedIsDecoded();
  }

  lemma EmptyRun(l: L.Ledger)
    ensures L.Run(l, []) == l
  {
  }

  /**
   From a new tree with any retention policy, through any tame and smooth run, to a read: the answer
   is the one of the map that the ledger has for the version.  Under the count policy none of the
   newest `n` versions is ever collected.
   */
  method RunAndRead(H: Hasher, policy: Policy, n: nat, steps: seq<L.Step>, v: Version, key: Key, ghost keys: set<Key>)
    returns (tree: VersionedTree, r: ReadResult, ghost done: seq<L.Step>)
    requires L.TameRun(steps, keys) && key != ZERO_KEY && 0 < v <= MAX_VERSION
    ensures tree.H == H && L.MatchAll(steps, done)
    ensures L.Smooth(H, L.INITIAL, steps) ==>
              var end := L.Run(L.INITIAL, done);
              && FollowsAll(L.INITIAL, policy, n, steps, done) && (policy == KeepCount ==> NewestKept(end, n))
              && (v !in end.live ==> r == Failed)
              && (v in end.live && CollisionFree(H, end.puts) ==> Answers(end, v, key, r))
  {
    hide StateOk, NodeSource.Sound, L.Tame, L.Next, L.Run, L.Smooth, CollisionFree, FollowsAll, NewestKept,
      L.Wellformed;
    tree := new VersionedTree(H);
    tree.vm.SetRetentionPolicy(policy, n);
    InitialIsDeep(keys);
    done := Drive(tree, steps, keys);
    IndexCovers(H, tree.Now(), tree.meaning, v);
    if L.Smooth(H, L.INITIAL, steps) && policy == KeepCount {
      L.InitialWellformed();
      NothingCollectedYet(n);
      RunKeepsNewest(L.INITIAL, n, steps, done);
    }
    r := tree.Get(v, key);
  }

  /**
   The same for root hashes.  Through any tame and smooth run, a version that has not been collected
   has the root hash of a map: the one of its nearest ancestor with operations, itself perhaps; or the
   zero hash, if nothing was tried in some version on the way and its parent was gone when it was
   committed.
   */
  method RunAndRoot(H: Hasher, policy: Policy, n: nat, steps: seq<L.Step>, v: Version, ghost keys: set<Key>)
    returns (tree: VersionedTree, r: Option<Hash>, ghost done: seq<L.Step>)
    requires L.TameRun(steps, keys) && 0 < v <= MAX_VERSION
    ensures tree.H == H && L.MatchAll(steps, done)
    ensures L.Smooth(H, L.INITIAL, steps) ==> FollowsAll(L.INITIAL, policy, n, steps, done)
    ensures L.Smooth(H, L.INITIAL, steps) ==> (r.Some? <==> v in L.Run(L.INITIAL, done).live)
    ensures L.Smooth(H, L.INITIAL, steps) && r.Some? ==>
              var end := L.Run(L.INITIAL, done);
              && L.ParentsOk(end) && v in end.committed && L.Nearest(end, v) in end.committed
              && (r.value == HashOfMap(H, end.committed[L.Nearest(end, v)].contents) ||
                  (r.value == ZERO && !L.AttentiveRun(L.INITIAL, done)))
  {
    hide StateOk, NodeSource.Sound, L.Tame, L.Next, L.Run, L.Smooth, FollowsAll, L.Wellformed, L.AttentiveRun,
      HashOfMap, HasHash, L.NearestHashes, L.Nearest, L.ParentsOk, L.AllDeep;
    tree := new VersionedTree(H);
    tree.vm.SetRetentionPolicy(policy, n);
    InitialIsDeep(keys);
    done := Drive(tree, steps, keys);
    r := tree.GetRootHash(v);
    if L.Smooth(H, L.INITIAL, steps) && r.Some? {
      L.InitialWellformed();
      InitialNearest();
      L.RunNearest(L.INITIAL, done, false);
      if L.AttentiveRun(L.INITIAL, done) { L.RunNearest(L.INITIAL, done, true); }
      TreesFit(H, tree.Now(), tree.meaning, v);
      RootOfNearest(H, tree.Now(), tree.meaning, v, r.value, keys);
      if L.AttentiveRun(L.INITIAL, done) { NearestExactly(tree.Ledger(), v); }
    }
  }

  lemma NearestExactly(l: L.Ledger, v: Version)
    requires L.ParentsOk(l) && L.NearestHashes(l, true) && v in l.committed
    ensures v in l.hashOf && l.hashOf[v] == L.Nearest(l, v)
  {
    hide L.ParentsOk, L.Nearest;
  }

  lemma InitialNearest()
    ensures L.NearestHashes(L.INITIAL, true) && L.NearestHashes(L.INITIAL, false)
  {
  }

  lemma RootOfNearest(H: Hasher, a: Image, m: Meaning, v: Version, h: Hash, keys: set<Key>)
    requires v in m.ledger.live && v in m.ledger.committed && v in m.ledger.hashOf
    requires HasHash(H, m.trees, m.ledger.hashOf[v], h) && L.AllDeep(m.ledger, keys)
    requires L.ParentsOk(m.ledger) && L.NearestHashes(m.ledger, false)
    requires StateOk(H, a, m)
    ensures L.Nearest(m.ledger, v) in m.ledger.committed
    ensures var w := L.Nearest(m.ledger, v);
            h == HashOfMap(H, m.ledger.committed[w].contents) || (h == ZERO && m.ledger.hashOf[v] == 0 != w)
  {
    hide StateOk, L.ParentsOk, L.Nearest, HashOfMap, RootHash;
    L.NearestIsCommitted(m.ledger, v);
    TreesFit(H, a, m, v);
    var w := m.ledger.hashOf[v];
    VersionIs(H, a, m, w);
    HashOfDeepTree(H, m.trees[w], m.ledger.committed[w].contents);
    if w == 0 {
      WellformedOf(H, a, m);
      ZeroIsEmpty(m.ledger);
      EmptyTrees(H, a, m, 0);
      EmptyHash(H);
    }
  }

  // ----- Versions without operations -----

  /** Begin a version; the ledger has one more draft, which is as its parent. */
  method BeginAlone(tree: VersionedTree) returns (r: Option<Version>)
    requires tree.Valid()
    modifies tree`meaning, tree.vm`pending, tree.vm`latestVersion
    ensures tree.Valid() && (r.None? <==> old(tree.Ledger()).latest == MAX_VERSION)
    ensures old(tree.Ledger()).top in old(tree.Ledger()).committed
    ensures r.Some? ==>
              var l, v := old(tree.Ledger()), r.value;
              v == l.latest + 1 && tree.Ledger() == l.(latest := v, drafts := l.drafts[v := L.Opened(l)])
  {
    hide VersionedTree.Valid, L.Next, L.Opened;
    tree.TopIsThere();
    ghost var l := tree.Ledger();
    r := tree.BeginVersion();
    if r.Some? { BeginIs(l); }
  }

  lemma BeginIs(l: L.Ledger)
    requires l.top in l.committed && l.latest < MAX_VERSION
    ensures var v := l.latest + 1; L.Next(l, L.Begin) == l.(latest := v, drafts := l.drafts[v := L.Opened(l)])
  {
  }

  /** Commit a version without operations, whose parent is still indexed. */
  method CommitUntried(tree: VersionedTree, v: Version) returns (ok: bool)
    requires tree.Valid() && v in tree.Ledger().drafts && tree.Ledger().drafts[v].ops == 0
    requires var p := tree.Ledger().drafts[v].parent; p < v && (p > 0 ==> p in tree.rootHashes)
    modifies tree, tree.vm`pending, tree.vm`versions, tree.vm`latestVersion, tree.vm`committedVersion, tree.source
    ensures tree.Valid() && (ok <==> L.CanSeal(old(tree.Ledger()).drafts[v]))
    ensures ok ==>
        var d, l := old(tree.Ledger()).drafts[v], tree.Ledger();
        && v in l.committed && l.committed[v].contents == map[] && v in tree.rootHashes
        && (d.parent > 0 ==> tree.rootHashes[v] == old(tree.rootHashes)[d.parent])
        && (d.parent == 0 ==> tree.rootHashes[v] == ZERO)
        && tree.source.roots == (if d.touched then old(tree.source.roots)[v := tree.rootHashes[v]]
                                 else old(tree.source.roots))
        && l.stored == if d.touched then old(tree.Ledger()).stored + {v} else old(tree.Ledger()).stored
  {
    hide VersionedTree.Valid, VersionedTree.Now, L.Next, HasHash, L.CanSeal, Committable, L.HashSource, RootHash,
      L.Wellformed;
    ghost var a, p := tree.Ledger(), tree.Ledger().drafts[v].parent;
    TreeCommittable(tree, v);
    TreeIndex(tree, p);
    ok := tree.CommitVersion(v);
    if ok {
      EmptyCommitted(a, v);
      if a.drafts[v].touched { ParentsSource(a, v); }
      TreeIndex(tree, p);
      TreeIndex(tree, v);
    }
  }

  /**
   A version in which nothing is tried, over any valid tree: its commit goes through, it reads as
   empty, it has its parent's root hash, and nothing is stored for it.
   */
  method EmptyVersion(tree: VersionedTree) returns (r: Option<Version>)
    requires tree.Valid()
    modifies tree, tree.vm`pending, tree.vm`versions, tree.vm`latestVersion, tree.vm`committedVersion, tree.source
    ensures tree.Valid() && (r.None? <==> old(tree.Ledger()).latest == MAX_VERSION)
    ensures r.Some? ==>
        var v, parent := r.value, old(tree.Ledger()).top;
        && v in tree.Ledger().committed && tree.Ledger().committed[v].contents == map[] && v in tree.rootHashes
        && (parent > 0 ==> parent in old(tree.rootHashes) && tree.rootHashes[v] == old(tree.rootHashes)[parent])
        && (parent == 0 ==> tree.rootHashes[v] == ZERO)
        && tree.source.roots == old(tree.source.roots) && v !in tree.Ledger().stored
  {
    hide VersionedTree.Valid, VersionedTree.Now, L.CanSeal, L.Opened, L.Wellformed;
    ghost var l := tree.Ledger();
    TreeIndex(tree, l.top);
    TopIsLive(l);
    OpenedSeals(l);
    r := BeginAlone(tree);
    if r.None? { return; }
    var _ := CommitUntried(tree, r.value);
  }

  lemma TopIsLive(l: L.Ledger)
    requires L.Wellformed(l)
    ensures l.top in l.live && l.top in l.committed && l.top <= l.latest && forall v | v in l.stored :: v <= l.latest
  {
    hide L.ParentsOk, L.ValuesOk, L.HashOk;
  }

  lemma OpenedSeals(l: L.Ledger)
    requires l.top in l.committed
    ensures L.CanSeal(L.Opened(l)) && L.Opened(l).ops == 0 && !L.Opened(l).touched && L.Opened(l).parent == l.top
  {
  }

  lemma EmptyCommitted(a: L.Ledger, v: Version)
    requires v in a.drafts && L.CanSeal(a.drafts[v]) && a.drafts[v].ops == 0
    ensures var b := L.Next(a, L.Commit(v));
            && v in b.committed && b.committed[v].contents == map[]
            && b.stored == (if a.drafts[v].touched then a.stored + {v} else a.stored)
            && v in b.hashOf && b.hashOf[v] == L.HashSource(a, v, a.drafts[v])
  {
    hide L.HashSource;
  }

  /**
   A version in which a delete is refused, over any valid tree: the refusal changes no map, but the
   version has an updater now.  It can be committed unless its parent is an empty version other than
   0; then it reads as empty, has its parent's root hash, and that is stored, so that a restart finds
   the version.
   */
  method RefusedVersion(tree: VersionedTree, key: Key) returns (r: Option<Version>, ok: bool)
    requires tree.Valid() && key != ZERO_KEY
    requires var l := tree.Ledger(); l.top in l.committed ==> key !in l.committed[l.top].contents
    modifies tree, tree.vm`pending, tree.vm`versions, tree.vm`latestVersion, tree.vm`committedVersion, tree.source
    ensures tree.Valid() && (r.None? <==> old(tree.Ledger()).latest == MAX_VERSION)
    ensures var l := old(tree.Ledger());
            l.top in l.committed && (r.Some? ==> (ok <==> l.top == 0 || l.committed[l.top].contents != map[]))
    ensures r.Some? && ok ==>
        var v, parent := r.value, old(tree.Ledger()).top;
        && v in tree.Ledger().committed && tree.Ledger().committed[v].contents == map[] && v in tree.rootHashes
        && (parent > 0 ==> parent in old(tree.rootHashes) && tree.rootHashes[v] == old(tree.rootHashes)[parent])
        && (parent == 0 ==> tree.rootHashes[v] == ZERO)
        && tree.source.roots == old(tree.source.roots)[v := tree.rootHashes[v]] && v in tree.Ledger().stored
  {
    hide VersionedTree.Valid, VersionedTree.Now, L.Next, L.CanSeal, L.CanDelete, L.Opened, L.Wellformed;
    ghost var l := tree.Ledger();
    TreeIndex(tree, l.top);
    TopIsLive(l);
    OpenedSeals(l);
    r := BeginAlone(tree);
    ok := false;
    if r.None? { return; }
    RefusedDelete(l, tree.Ledger(), r.value, key);
    var _ := tree.DeleteVersioned(r.value, key);
    ok := CommitUntried(tree, r.value);
  }

  /** What the index of a valid tree holds. */
  lemma TreeIndex(tree: VersionedTree, v: Version)
    requires tree.Valid()
    ensures var l := tree.Ledger();
            && L.Wellformed(l) && 0 in l.hashOf && l.hashOf[0] == 0
            && (v > 0 ==> (v in tree.rootHashes <==> v in l.live))
            && (v in tree.rootHashes ==>
                  && v in l.hashOf && l.hashOf[v] in tree.meaning.trees
                  && tree.rootHashes[v] == RootHash(tree.H, tree.meaning.trees[l.hashOf[v]])
                  && (l.hashOf[v] == 0 ==> tree.rootHashes[v] == ZERO))
  {
    hide StateOk, NodeSource.Sound, RootHash;
    IndexedHash(tree.H, tree.Now(), tree.meaning, v);
    WellformedOf(tree.H, tree.Now(), tree.meaning);
    ZeroIsEmpty(tree.Ledger());
    EmptyTrees(tree.H, tree.Now(), tree.meaning, 0);
    EmptyHash(tree.H);
  }

  lemma TreeCommittable(tree: VersionedTree, v: Version)
    requires tree.Valid() && v in tree.Ledger().drafts && tree.Ledger().drafts[v].ops == 0
    ensures Committable(tree.H, tree.Now(), tree.meaning, v) <==> L.CanSeal(tree.Ledger().drafts[v])
  {
    hide StateOk, NodeSource.Sound;
    EmptyIsCommittable(tree.H, tree.Now(), tree.meaning, v);
  }

  /** What a refused delete leaves of a version just begun. */
  lemma RefusedDelete(l: L.Ledger, b: L.Ledger, v: Version, key: Key)
    requires l.top in l.committed && l.latest < MAX_VERSION && v == l.latest + 1
    requires b == l.(latest := v, drafts := l.drafts[v := L.Opened(l)])
    requires key != ZERO_KEY && key !in l.committed[l.top].contents
    ensures var c := L.Next(b, L.Delete(v, key));
            && !L.CanDelete(b, v, key) && v in c.drafts && c.drafts[v] == L.Opened(l).(touched := true)
            && c == l.(latest := v, drafts := c.drafts)
            && (L.CanSeal(c.drafts[v]) <==> l.top == 0 || l.committed[l.top].contents != map[])
  {
  }

  /** The commit of a touched version without operations records what its parent has. */
  lemma ParentsSource(c: L.Ledger, v: Version)
    requires v in c.drafts && c.drafts[v].ops == 0 && c.drafts[v].touched && c.drafts[v].parent in c.hashOf
    requires L.CanSeal(c.drafts[v]) && c.drafts[v].parent != v
    ensures var b, p := L.Next(c, L.Commit(v)), c.drafts[v].parent;
            v in b.hashOf && p in b.hashOf && b.hashOf[v] == b.hashOf[p] == c.hashOf[p]
  {
  }

  /** What a read of version `v` should say, given the ledger. */
  ghost predicate Answers(l: L.Ledger, v: Version, key: Key, r: ReadResult) {
    v in l.committed && r == if key in l.committed[v].contents then Found(l.committed[v].contents[key]) else Absent
  }

  /**
   The whole claim in one statement.  From a new tree with any retention policy, do anything (`pre`),
   begin a version, do anything but finish it (`mid`), commit it, and do anything (`post`).  Then,
   unless the version has been collected, reading a key in it gives what replaying its own operations
   over its parent's map holds for the key, or nothing if none has succeeded.  Under the count policy
   a version with fewer than `n` newer ones is not collected.
   */
  method StoryAndRead(H: Hasher, policy: Policy, n: nat, pre: seq<L.Step>, mid: seq<L.Step>, post: seq<L.Step>,
                      v: Version, key: Key, ghost keys: set<Key>)
    returns (tree: VersionedTree, r: ReadResult, ghost before: seq<L.Step>, ghost between: seq<L.Step>,
             ghost after: seq<L.Step>)
    requires L.TameRun(pre, keys) && L.TameRun(mid, keys) && L.TameRun(post, keys)
    requires L.Unfinished(v, mid) && key != ZERO_KEY && 0 < v <= MAX_VERSION
    ensures L.MatchAll(pre, before) && L.MatchAll(mid, between) && L.MatchAll(post, after)
    ensures L.Run(L.INITIAL, before).top in L.Run(L.INITIAL, before).committed
    ensures var l := L.Run(L.INITIAL, before);
            var end := L.Story(l, v, between, after);
            var d := L.Replay(L.Opened(l), v, between);
            v == l.latest + 1 && L.CanSeal(d) &&
            L.Smooth(H, L.INITIAL, pre + [L.Begin] + mid + [L.Commit(v)] + post) ==>
              && v in end.committed
              && (policy == KeepCount && |Above(end.committed.Keys, v)| < n ==> v in end.live)
              && (v in end.live && CollisionFree(H, end.puts) ==>
                    r == if d.ops > 0 && key in d.contents then Found(d.contents[key]) else Absent)
  {
    hide L.TameRun, L.Run, L.Story, L.Smooth, L.Replay, L.Opened, L.Unfinished, L.Wellformed, CollisionFree,
      L.Sealed, L.MatchAll, L.Next, NewestKept, FollowsAll, Above, L.CanSeal;
    var steps := pre + [L.Begin] + mid + [L.Commit(v)] + post;
    TameStory(pre, mid, post, v, keys);
    ghost var done;
    tree, r, done := RunAndRead(H, policy, n, steps, v, key, keys);
    before, between, after := SplitStory(pre, mid, post, v, done);
    ghost var l := L.Run(L.INITIAL, before);
    ghost var end := L.Story(l, v, between, after);
    StoryOfRun(before, between, after, v);
    L.InitialWellformed();
    L.RunWellformed(L.INITIAL, before);
    TopIsCommitted(l);
    ghost var d := L.Replay(L.Opened(l), v, between);
    if v == l.latest + 1 && L.CanSeal(d) && L.Smooth(H, L.INITIAL, steps) {
      UnfinishedToo(v, mid, between);
      L.VersionIsReplay(l, v, between, after);
      SealedOf(d);
      L.RunWellformed(L.INITIAL, done);
      L.WellformedNumbers(end);
      if policy == KeepCount && |Above(end.committed.Keys, v)| < n { NewestIsLive(end, n, v); }
    }
  }

  lemma InitialIsDeep(keys: set<Key>)
    ensures L.AllDeep(L.INITIAL, keys)
  {
  }

  lemma IndexCovers(H: Hasher, a: Image, m: Meaning, v: Version)
    requires StateOk(H, a, m) && v > 0
    ensures v in a.rootHashes <==> v in m.ledger.live
  {
    hide StoreOk, AllVersions, AllDrafts, RootsOk, ManagerOk, ManagerMatches, L.Wellformed, RootHash;
  }

  // ----- Restart -----

  /** Reopen over another tree's storage, at any point of its life, and read. */
  method ReopenAndRead(tree: VersionedTree, v: Version, key: Key) returns (again: VersionedTree, r: ReadResult)
    requires tree.Valid() && key != ZERO_KEY && 0 < v <= MAX_VERSION
    ensures again.Valid() && Restores(tree.Ledger(), again.Ledger())
    ensures tree.source.roots.Keys == tree.Ledger().stored
    ensures Restarted(again.vm.versions, again.rootHashes, tree.source.roots)
    ensures r == Failed <==> v !in tree.Ledger().stored
    ensures r != Failed && CollisionFree(tree.H, tree.Ledger().puts) ==>
              Answers(tree.Ledger(), v, key, r)
  {
    hide StateOk, Encodes, AllStored, Cached, CollisionFree, Newest, Recovered, L.HashesOk, Restores, Restarted;
    ghost var a, m := tree.Now(), tree.meaning;
    StoredFacts(tree.H, a, m);
    again := new VersionedTree.Reopen(tree.H, tree.source.store, a, m);
    RecoveredVersions(tree.H, a, m, again.Ledger().top);
    RestartedIndex(again.vm.versions, again.rootHashes, a.roots, v);
    r := again.Get(v, key);
    RestoredVersion(tree.Ledger(), again.Ledger(), v);
  }

  lemma RestartedIndex(versions: VersionMap, rootHashes: map<Version, Hash>, roots: map<Version, Hash>, v: Version)
    requires Restarted(versions, rootHashes, roots) && v > 0
    ensures v in rootHashes <==> v in roots
  {
  }

  lemma RestoredVersion(l: L.Ledger, r: L.Ledger, v: Version)
    requires Restores(l, r)
    ensures r.puts == l.puts
    ensures v in r.committed ==> v in l.committed && r.committed[v].contents == l.committed[v].contents
  {
  }

  // ----- The pieces of a story -----

  lemma TameStory(pre: seq<L.Step>, mid: seq<L.Step>, post: seq<L.Step>, v: Version, keys: set<Key>)
    requires L.TameRun(pre, keys) && L.TameRun(mid, keys) && L.TameRun(post, keys)
    ensures L.TameRun(pre + [L.Begin] + mid + [L.Commit(v)] + post, keys)
  {
    hide L.Alone;
  }

  lemma MatchSplit(a: seq<L.Step>, b: seq<L.Step>, done: seq<L.Step>)
    requires L.MatchAll(a + b, done)
    ensures |a| <= |done| && L.MatchAll(a, done[..|a|]) && L.MatchAll(b, done[|a|..])
    ensures done == done[..|a|] + done[|a|..]
  {
    hide L.Matches;
    forall i | 0 <= i < |b|
      ensures L.Matches(b[i], done[|a|..][i])
    {
      assert L.Matches((a + b)[|a| + i], done[|a| + i]);
    }
    forall i | 0 <= i < |a|
      ensures L.Matches(a[i], done[..|a|][i])
    {
      assert L.Matches((a + b)[i], done[i]);
    }
  }

  lemma MatchOne(s: L.Step, done: seq<L.Step>)
    requires L.MatchAll([s], done) && !s.Collect?
    ensures done == [s]
  {
    assert L.Matches([s][0], done[0]);
  }

  lemma SplitStory(pre: seq<L.Step>, mid: seq<L.Step>, post: seq<L.Step>, v: Version, done: seq<L.Step>)
    returns (before: seq<L.Step>, between: seq<L.Step>, after: seq<L.Step>)
    requires L.MatchAll(pre + [L.Begin] + mid + [L.Commit(v)] + post, done)
    ensures L.MatchAll(pre, before) && L.MatchAll(mid, between) && L.MatchAll(post, after)
    ensures done == before + [L.Begin] + between + [L.Commit(v)] + after
  {
    hide L.MatchAll;
    var k := |pre + [L.Begin] + mid + [L.Commit(v)]|;
    MatchSplit(pre + [L.Begin] + mid + [L.Commit(v)], post, done);
    var d3 := done[..k];
    MatchSplit(pre + [L.Begin] + mid, [L.Commit(v)], d3);
    var d2 := d3[..k - 1];
    MatchOne(L.Commit(v), d3[k - 1..]);
    MatchSplit(pre + [L.Begin], mid, d2);
    var d1 := d2[..|pre| + 1];
    MatchSplit(pre, [L.Begin], d1);
    MatchOne(L.Begin, d1[|pre|..]);
    before, between, after := d1[..|pre|], d2[|pre| + 1..], done[k..];
  }

  lemma {:induction false} RunConcat(l: L.Ledger, a: seq<L.Step>, b: seq<L.Step>)
    ensures L.Run(l, a + b) == L.Run(L.Run(l, a), b)
    decreases |a|
  {
    hide L.Next;
    if a == [] {
      assert a + b == b;
    } else {
      assert (a + b)[1..] == a[1..] + b;
      RunConcat(L.Next(l, a[0]), a[1..], b);
    }
  }

  lemma RunOne(l: L.Ledger, s: L.Step)
    ensures L.Run(l, [s]) == L.Next(l, s)
  {
    hide L.Next;
    assert [s][1..] == [];
  }

  lemma StoryOfRun(before: seq<L.Step>, between: seq<L.Step>, after: seq<L.Step>, v: Version)
    ensures L.Run(L.INITIAL, before + [L.Begin] + between + [L.Commit(v)] + after) ==
        L.Story(L.Run(L.INITIAL, before), v, between, after)
  {
    hide *;
    var l := L.INITIAL;
    RunConcat(l, before + [L.Begin] + between + [L.Commit(v)], after);
    RunConcat(l, before + [L.Begin] + between, [L.Commit(v)]);
    RunConcat(l, before + [L.Begin], between);
    RunConcat(l, before, [L.Begin]);
    RunOne(L.Run(l, before), L.Begin);
    RunOne(L.Run(l, before + [L.Begin] + between), L.Commit(v));
    L.StoryUnfold(L.Run(l, before), v, between, after);
  }

  lemma SealedOf(d: L.Draft)
    ensures L.Sealed(d).contents == if d.ops > 0 then d.contents else map[]
  {
  }

  lemma TopIsCommitted(l: L.Ledger)
    requires L.Wellformed(l)
    ensures l.top in l.committed
  {
    hide L.ParentsOk, L.ValuesOk;
  }

  lemma UnfinishedToo(v: Version, asked: seq<L.Step>, done: seq<L.Step>)
    requires L.MatchAll(asked, done) && L.Unfinished(v, asked)
    ensures L.Unfinished(v, done)
  {
    forall i | 0 <= i < |done|
      ensures done[i] != L.Commit(v) && done[i] != L.Abort(v)
    {
      assert L.Matches(asked[i], done[i]);
    }
  }

  // ----- A put that is lost -----

  /**
   A put in any pending version of any valid tree, whether the key lands or not: it succeeds exactly
   for acceptable input, and following the key's nibbles from the root of the version finds the
   value if and only if the key lands.
   */
  method PutAnyway(tree: VersionedTree, v: Version, key: Key, value: Bytes) returns (u: TreeUpdater, ok: bool)
    requires tree.Valid() && v in tree.Ledger().drafts
    modifies tree.source`entries, tree.source`hits, tree.source`misses
    ensures tree.Valid() && v in tree.meaning.drafts && u.H == tree.H && u.newVersion == v
    ensures ok <==> key != ZERO_KEY && L.StorableValue(value)
    ensures ok ==>
        (Walk(u.View(), RootNodeKey(v), key, 0) == Some(tree.H(value)) <==> Lands(tree.meaning.drafts[v], key, 0))
    ensures ok && !Lands(tree.meaning.drafts[v], key, 0) ==> Walk(u.View(), RootNodeKey(v), key, 0) == None
  {
    hide StateOk, NodeSource.Sound, Lands, PendingMatches, PendingOk, Regular, Walk, ToPath, SameOutside, PathWritten,
      Placed, Deep, StandsFor, RepOpt, StateOf, TreeUpdater.View, Insert, Hashed, TreeHash, StringsOf, CollisionFree;
    ghost var m, puts := tree.meaning, tree.meaning.ledger.puts;
    DraftsFacts(tree.H, tree.Now(), m, v);
    var p := tree.vm.pending[v];
    DraftFacts(tree.H, tree.source.nodes, tree.source.values, v, p, m.ledger.drafts[v], m.drafts[v], m.shadows[v],
               puts, puts + {value});
    StandingTree(tree.H, m.drafts[v], m.ledger.drafts[v].contents, m.ledger.drafts[v].deep);
    ghost var strings :=
      if Lands(m.drafts[v], key, 0) then Hashed(tree.H, Insert(m.drafts[v], key, tree.H(value), 0)) else {};
    u := new TreeUpdater.Resume(tree.H, tree.source, v, StateOf(p), m.shadows[v], puts + {value}, strings);
    ok := u.Put(key, value, m.drafts[v]);
  }

  /** Put the keys 0...010 and 0...011 in one version and delete the second: the first key's leaf then is the root. */
  method LoneTwin(H: Hasher, x: Bytes) returns (tree: VersionedTree)
    requires L.StorableValue(x)
    ensures tree.Valid() && tree.H == H && fresh(tree) && fresh(tree.source)
    ensures 1 in tree.Ledger().drafts && tree.Ledger().drafts[1].contents == map[L.LowKey(0x10) := x]
    ensures 1 in tree.meaning.drafts && tree.meaning.drafts[1] == Some(Leaf(L.LowKey(0x10), H(x)))
  {
    hide VersionedTree.Valid, Lands, Insert, Remove, L.LowKey, Alike, TwinIn, Lifted, ToPath, Lookup, StateOf,
      L.Next, L.CanPut, L.CanDelete, TreeHash, Hashed, Placed, Deep, StringsOf;
    var a, b := L.LowKey(0x10), L.LowKey(0x11);
    L.LowKeysAlike();
    LoneTwinLedger(a, b, x);
    tree := new VersionedTree(H);
    var _ := tree.BeginVersion();
    LoneTwinLifts(a, b, H(x), H(x), 0);
    LandsNone(a);
    var _ := tree.PutVersioned(1, a, x);
    var _ := tree.PutVersioned(1, b, x);
    var _ := tree.DeleteVersioned(1, b);
  }

  lemma LoneTwinLedger(a: Key, b: Key, x: Bytes)
    requires a != b && a != ZERO_KEY && b != ZERO_KEY && L.StorableValue(x)
    ensures var l1 := L.Next(L.INITIAL, L.Begin);
            var l2 := L.Next(l1, L.Put(1, a, x));
            var l3 := L.Next(l2, L.Put(1, b, x));
            var l4 := L.Next(l3, L.Delete(1, b));
            && l1.top == 0 && L.CanPut(l1, 1, a, x) && L.CanPut(l2, 1, b, x) && L.CanDelete(l3, 1, b)
            && 1 in l4.drafts && l4.drafts[1].contents == map[a := x]
  {
    hide TwinIn;
    assert map[][a := x][b := x] - {b} == map[a := x];
  }

  /** A put that is lost in a state that is reached: over that root, 0...020 does not land. */
  method LostPut(H: Hasher, x: Bytes, y: Bytes) returns (tree: VersionedTree, u: TreeUpdater, ok: bool)
    requires L.StorableValue(x) && L.StorableValue(y)
    ensures tree.Valid() && 1 in tree.Ledger().drafts && 1 in tree.meaning.drafts
    ensures !Lands(tree.meaning.drafts[1], L.LowKey(0x20), 0)
    ensures ok && u.newVersion == 1 && Walk(u.View(), RootNodeKey(1), L.LowKey(0x20), 0) == None
  {
    hide StateOk, NodeSource.Sound, Lands, Walk, L.LowKey, ToPath, TreeUpdater.View;
    ThirdKey();
    tree := LoneTwin(H, x);
    RootLeafLands(L.LowKey(0x10), H(x), L.LowKey(0x20));
    u, ok := PutAnyway(tree, 1, L.LowKey(0x20), y);
  }

  // ----- Root hashes -----

  lemma IndexFacts(H: Hasher, a: Image, m: Meaning, v: Version)
    requires StateOk(H, a, m) && v in a.rootHashes
    ensures v in m.ledger.committed && v in m.trees
    ensures StandsFor(H, m.trees[v], m.ledger.committed[v].contents, m.ledger.committed[v].deep)
    ensures m.ledger.committed[v].ops > 0 ==> a.rootHashes[v] == RootHash(H, m.trees[v])
  {
    hide StateOk, RootHash, StandsFor;
    TreesFit(H, a, m, v);
    LiveIndex(H, a, m);
    VersionIs(H, a, m, v);
    IndexedHash(H, a, m, v);
    WellformedOf(H, a, m);
    if m.ledger.committed[v].ops > 0 { L.OwnHash(m.ledger, v); }
  }

  /** History independence: whatever two trees have been through, equal contents have equal root hashes. */
  lemma SameContentsSameRoot(H: Hasher, a: Image, m: Meaning, v: Version, b: Image, n: Meaning, w: Version)
    requires StateOk(H, a, m) && v in a.rootHashes && StateOk(H, b, n) && w in b.rootHashes
    requires v in m.ledger.committed && w in n.ledger.committed
    requires m.ledger.committed[v].ops > 0 && m.ledger.committed[v].deep && n.ledger.committed[w].ops > 0
    requires n.ledger.committed[w].deep
    requires m.ledger.committed[v].contents == n.ledger.committed[w].contents
    ensures a.rootHashes[v] == b.rootHashes[w] && m.trees[v] == n.trees[w]
  {
    hide StateOk, Shows, PlacedOpt, DeepOpt, RootHash;
    IndexFacts(H, a, m, v);
    IndexFacts(H, b, n, w);
    SameContentsSameTree(H, m.trees[v], n.trees[w], m.ledger.committed[v].contents);
  }

  /** And different contents have different root hashes, unless two of the strings hashed collide. */
  lemma SameRootSameVersion(H: Hasher, a: Image, m: Meaning, v: Version, b: Image, n: Meaning, w: Version)
    requires StateOk(H, a, m) && v in a.rootHashes && StateOk(H, b, n) && w in b.rootHashes
    requires v in m.ledger.committed && w in n.ledger.committed && v in m.trees && w in n.trees
    requires m.ledger.committed[v].ops > 0 && n.ledger.committed[w].ops > 0
    requires a.rootHashes[v] == b.rootHashes[w]
    requires CollisionFree(H,
                           HashedFor(H, m.trees[v], m.ledger.committed[v].contents) + HashedFor(H, n.trees[w],
                             n.ledger.committed[w].contents))
    ensures m.ledger.committed[v].contents == n.ledger.committed[w].contents
  {
    hide StateOk, Shows, PlacedOpt, DeepOpt, RootHash, HashedFor, CollisionFree;
    IndexFacts(H, a, m, v);
    IndexFacts(H, b, n, w);
    SameRootSameContents(H, m.trees[v], m.ledger.committed[v].contents, n.trees[w], n.ledger.committed[w].contents);
  }

  // ----- Proofs -----

  /** Soundness: an accepted proof against a version's root hash is true of the version, unless two strings collide. */
  lemma AcceptedIsTrue(H: Hasher, a: Image, m: Meaning, v: Version, p: Proof)
    requires v in a.rootHashes && v in m.ledger.committed && v in m.trees
    requires m.ledger.committed[v].ops > 0
    requires p.rootHash == a.rootHashes[v] && Accepts(H, p)
    requires p.kind != Inclusion ==> Consecutive(p.siblings)
    requires p.kind == ExclusionNeighbor ==> Spelled(p) || WellAimed(p)
    requires CollisionFree(H, HashedFor(H, m.trees[v], m.ledger.committed[v].contents) + ProofHashed(H, p))
    requires StateOk(H, a, m)
    ensures var contents := m.ledger.committed[v].contents;
            if p.kind == Inclusion then p.key in contents && p.value == Some(contents[p.key]) else p.key !in contents
  {
    hide StateOk, Shows, PlacedOpt, DeepOpt, RootHash, HashedFor, CollisionFree, ProofHashed, ToPath, ValidSiblings;
    IndexFacts(H, a, m, v);
    if p.kind == Inclusion {
      InclusionSound(H, m.trees[v], m.ledger.committed[v].contents, p);
    } else if p.kind == ExclusionNeighbor {
      NeighborClaims(H, p);
      NeighborSound(H, m.trees[v], m.ledger.committed[v].contents, p);
    } else {
      ExclusionSound(H, m.trees[v], m.ledger.committed[v].contents, p);
    }
  }

  /** What a generated proof says of a version, and when it is accepted. */
  ghost predicate Tells(H: Hasher, e: L.Entry, t: Option<Tree>, puts: set<Bytes>, p: Proof, verdict: Verdict) {
    Consecutive(p.siblings) &&
    (p.kind == Inclusion <==> p.key in e.contents) &&
    (p.kind == Inclusion && CollisionFree(H, puts) ==> p.value == Some(e.contents[p.key])) &&
    (verdict == Accepted <==> Lands(t, p.key, 0)) &&
    (e.deep || p.key in e.contents ==> verdict == Accepted && p.kind != ExclusionNeighbor)
  }

  /**
   Completeness.  A proof is refused exactly for the zero key or for an empty version that is indexed
   under its parent's root hash.  A proof that is given says what the version holds, and it is
   accepted if and only if the key lands in the version's tree; where no leaf is in the way, as in
   every version with all leaves at depth 64, it does without a neighbour.
   */
  method ProveAndVerify(tree: VersionedTree, v: Version, key: Key) returns (p: Option<Proof>, verdict: Verdict)
    requires v in tree.rootHashes && tree.Valid()
    modifies tree.source`entries, tree.source`hits, tree.source`misses
    ensures v in tree.Ledger().committed && v in tree.meaning.trees
    ensures p.None? <==>
        key == ZERO_KEY || (old(tree.rootHashes[v]) != ZERO && tree.Ledger().committed[v].contents == map[])
    ensures p.Some? ==> p.value.key == key && p.value.rootHash == old(tree.rootHashes[v])
    ensures p.Some? ==>
        Tells(tree.H, tree.Ledger().committed[v], tree.meaning.trees[v], tree.Ledger().puts, p.value, verdict)
    ensures tree.Valid()
  {
    hide StateOk, NodeSource.Sound, RepOpt, Shows, PlacedOpt, DeepOpt, ValuesHashed, RootHash, CollisionFree,
      Clear, Lands, Levels, ToPath, ValidSiblings, Climb, IsNeighbor, HashedFor, Accepts;
    tree.ReadableVersion(v);
    IndexFacts(tree.H, tree.Now(), tree.meaning, v);
    ghost var t, e := tree.meaning.trees[v], tree.Ledger().committed[v];
    LookupTells(tree.H, t, e.contents, e.deep, key);
    NoOperationsNoTree(tree.H, tree.Now(), tree.meaning, v);
    if e.deep || key in e.contents { IsProvable(t, key); }
    RootTells(tree.H, t);
    p := Generate(tree.H, tree.source, v, tree.rootHashes[v], key, t);
    if p.None? { return p, Rejected; }
    verdict := Verify(tree.H, p.value);
    VerdictIsLanding(tree.H, tree.Now(), tree.meaning, v, p.value);
    if p.value.kind == Inclusion && CollisionFree(tree.H, tree.Ledger().puts) {
      ValueIsPut(tree.H, tree.Now(), tree.meaning, v, key, tree.H(e.contents[key]));
    }
  }

  /** A truthful proof for a version is accepted if and only if the key lands. */
  lemma VerdictIsLanding(H: Hasher, a: Image, m: Meaning, v: Version, p: Proof)
    requires v in m.ledger.committed && v in m.trees && p.key != ZERO_KEY
    requires StandsFor(H, m.trees[v], m.ledger.committed[v].contents, m.ledger.committed[v].deep)
    requires TruthfulProof(H, m.trees[v], p)
    requires m.trees[v].Some? ==> (p.neighbor.None? <==> Clear(m.trees[v].value, p.key, 0))
    requires StateOk(H, a, m)
    ensures Accepts(H, p) <==> Lands(m.trees[v], p.key, 0)
    ensures Consecutive(p.siblings)
  {
    hide StateOk, Shows, DeepOpt, Levels, ToPath, Lands, Clear, Climb, ValidSiblings, Placed, Holds, Lookup;
    var t := m.trees[v];
    if p.neighbor.None? {
      if t.Some? {
        assert Provable(t.value, p.key, []);
        ClearLands(t.value, p.key, 0);
      } else {
        LandsNone(p.key);
      }
      HonestAccepted(H, t, p);
      HonestAccepts(H, p);
    } else {
      NeighborIsThere(H, a, m, v, p.neighbor.value);
      NeighborAccepted(H, t.value, p);
    }
  }

  lemma HonestAccepts(H: Hasher, p: Proof)
    requires ValidProof(p) && InDepth(p.siblings) && p.kind != ExclusionNeighbor
    requires Climb(H, ToPath(StartKey(p)), p.siblings, StartHash(H, p), 0) == p.rootHash
    ensures Accepts(H, p)
  {
    hide ToPath, Climb, ValidSiblings;
  }

  /** A leaf of a version's tree is not for the zero key. */
  lemma NeighborIsThere(H: Hasher, a: Image, m: Meaning, v: Version, n: Neighbor)
    requires StateOk(H, a, m) && v in m.ledger.committed && v in m.trees && m.trees[v].Some?
    requires StandsFor(H, m.trees[v], m.ledger.committed[v].contents, m.ledger.committed[v].deep)
    requires Holds(m.trees[v].value, n.key, n.valueHash)
    ensures n.key != ZERO_KEY && Placed(m.trees[v].value, [])
  {
    hide StoreOk, AllVersions, AllDrafts, IndexOk, RootsOk, ManagerOk, ManagerMatches, L.NumbersOk, L.ParentsOk,
      Placed, Deep, Holds, Lookup;
    LookupFindsAll(m.trees[v].value, [], n.key, n.valueHash);
    LookupTells(H, m.trees[v], m.ledger.committed[v].contents, m.ledger.committed[v].deep, n.key);
    assert L.FromPuts(m.ledger.committed[v].contents, m.ledger.puts);
  }

  lemma NoOperationsNoTree(H: Hasher, a: Image, m: Meaning, v: Version)
    requires StateOk(H, a, m) && v in m.ledger.committed && v in m.trees
    requires StandsFor(H, m.trees[v], m.ledger.committed[v].contents, m.ledger.committed[v].deep)
    ensures m.trees[v].None? <==> m.ledger.committed[v].contents == map[]
    ensures m.ledger.committed[v].ops == 0 ==> m.trees[v].None?
  {
    hide Shows, PlacedOpt, DeepOpt, StoreOk, AllVersions, AllDrafts, IndexOk, RootsOk, ManagerOk, ManagerMatches,
      L.NumbersOk, L.ParentsOk,
      L.FromPuts;
    ShowsEmpty(H, m.trees[v], m.ledger.committed[v].contents);
  }

  lemma IsProvable(t: Option<Tree>, key: Key)
    requires PlacedOpt(t) && (DeepOpt(t) || LookupOpt(t, key, 0).Some?)
    ensures t.Some? ==> Clear(t.value, key, 0)
    ensures Lands(t, key, 0)
  {
    hide ToPath, Clear, Lands, Deep, Placed, Lookup;
    if t.Some? {
      assert [] <= ToPath(key);
      IsClear(t.value, key, []);
      ClearLands(t.value, key, 0);
    } else {
      LandsNone(key);
    }
  }

  lemma RootTells(H: Hasher, t: Option<Tree>)
    ensures RootHash(H, t) == ZERO <==> t.None?
  {
  }

  lemma LandsNone(k: Key)
    ensures Lands(None, k, 0)
  {
  }

  /** A key lands on a leaf at the root if and only if it is the leaf's or differs in the first nibble. */
  lemma RootLeafLands(a: Key, h: Hash, k: Key)
    ensures Lands(Some(Leaf(a, h)), k, 0) <==> a == k || ToPath(a)[0] != ToPath(k)[0]
  {
  }

  lemma ThirdKey()
    ensures L.LowKey(0x20) != ZERO_KEY && L.LowKey(0x20) != L.LowKey(0x10)
    ensures ToPath(L.LowKey(0x20))[0] == ToPath(L.LowKey(0x10))[0]
  {
    assert L.LowKey(0x20)[31] != L.LowKey(0x10)[31] && L.LowKey(0x20)[31] != ZERO_KEY[31];
  }
}
