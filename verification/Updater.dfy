/**
 The copy-on-write updater of one pending version (pkg/tree/tree_updater.go).
 */
module Updater {
  import opened Types
  import opened Merkle
  import opened TreeMap
  import opened Nodes
  import opened NodeStore
  import opened UpdateSteps
  import opened Contents
  import opened Validation

  /** What a pending version keeps of its updater between operations. */
  datatype UpdaterState = UpdaterState(writes: NodeMap, stale: seq<NodeKey>, currentRoot: NodeKey)

  /** A new updater: no writes, at the root of the old version. */
  function NewState(oldVersion: Version): UpdaterState {
    UpdaterState(map[], [], RootNodeKey(oldVersion))
  }

  class TreeUpdater {
    const H: Hasher
    const source: NodeSource
    const newVersion: RealVersion
    var writes: NodeMap
    var stale: seq<NodeKey>
    var currentRoot: NodeKey
    /** For each pending write, the tree it stood for. */
    ghost var shadow: map<NodeKey, Tree>
    /** The values that pending leaves may carry. */
    ghost const puts: set<Bytes>
    /** The strings that may be hashed for regular pending nodes. */
    ghost const strings: set<Bytes>

    ghost predicate Base()
      reads `writes, `shadow, `stale, source`store, source`nodes, source`values, source`roots, source`entries
    {
      source.Sound() && PendingOk(H, source.nodes, source.values, newVersion, writes, stale, shadow, puts)
    }

    /** The tree below depth `d` is as regular as the pending writes are. */
    ghost predicate AllRegular(t: Option<Tree>, d: nat)
      reads `writes, `shadow
    {
      writes.Keys == shadow.Keys && Regular(H, writes, shadow, newVersion, strings) &&
      (t.Some? ==> Deep(t.value, d))
    }

    /** Pending writes layered over storage. */
    ghost function View(): NodeMap
      reads `writes, source`nodes
    {
      source.nodes + writes
    }

    lemma ViewFacts()
      requires Base()
      ensures NO_KEY !in View() && writes.Keys == shadow.Keys
    {
      hide Shadows;
      ViewOk(H, source.nodes, writes, shadow, newVersion);
    }

    lemma LeafKeyFact(key: NodeKey)
      requires Base() && key in View() && View()[key].LeafData?
      ensures View()[key].key != ZERO_KEY && Valued(H, View()[key], source.values, puts)
    {
      hide Shadows;
      ViewOk(H, source.nodes, writes, shadow, newVersion);
    }

    lemma StoredNodeVersion(key: NodeKey)
      requires Base() && writes == map[] && key in View()
      ensures View()[key].version != newVersion
    {
    }

    lemma ShadowOf(key: NodeKey)
      requires Base() && key in writes
      ensures key in shadow && Shadows(H, key, writes[key], shadow[key], newVersion)
    {
      hide Shadows, AllValued, StoredOk, NodeSource.Sound;
    }

    lemma InView(key: NodeKey)
      requires key in writes
      ensures key in View() && View()[key] == writes[key]
    {
    }

    /** An updater continues from the state that its version has kept. */
    constructor Resume(H: Hasher, source: NodeSource, newVersion: RealVersion, state: UpdaterState,
                       ghost shadow: map<NodeKey, Tree>, ghost puts: set<Bytes>, ghost strings: set<Bytes>)
      requires source.Sound()
      requires PendingOk(H, source.nodes, source.values, newVersion, state.writes, state.stale, shadow, puts)
      ensures Base() && View() == source.nodes + state.writes
      ensures this.H == H && this.source == source && this.newVersion == newVersion && this.shadow == shadow
      ensures this.puts == puts && this.strings == strings && State() == state
    {
      hide PendingOk, NodeSource.Sound;
      this.H, this.source, this.newVersion, this.shadow, this.puts := H, source, newVersion, shadow, puts;
      this.strings := strings;
      writes, stale, currentRoot := state.writes, state.stale, state.currentRoot;
    }

    function State(): UpdaterState
      reads `writes, `stale, `currentRoot
    {
      UpdaterState(writes, stale, currentRoot)
    }

    /** Pending writes first, then storage; a key of version 0 names nothing. */
    method GetNode(key: NodeKey) returns (r: Option<NodeData>)
      requires Base() && |key.path| <= MAX_DEPTH
      modifies source`entries, source`hits, source`misses
      ensures Base()
      ensures r == if key in View() then Some(View()[key]) else None
    {
      if key in writes { return Some(writes[key]); }
      if key.version == 0 { return None; }
      r := source.Load(key);
    }

    method MarkStale(key: NodeKey)
      requires Base() && key.version <= newVersion
      modifies `stale
      ensures Base() && stale == old(stale) + [key]
    {
      hide WritesShadowed, StoredOk, AllValued, NodeSource.Sound;
      stale := stale + [key];
    }

    method Write(key: NodeKey, d: NodeData, ghost t: Tree)
      requires Base() && Shadows(H, key, d, t, newVersion) && Valued(H, d, source.values, puts)
      modifies `writes, `shadow
      ensures Base() && writes == old(writes)[key := d] && shadow == old(shadow)[key := t]
      ensures View() == old(View())[key := d]
    {
      hide WritesShadowed, StoredOk, Shadows, NodeSource.Sound, Valued;
      WriteShadowed(H, writes, shadow, newVersion, key, d, t);
      WriteOverlay(source.nodes, writes, key, d);
      writes, shadow := writes[key := d], shadow[key := t];
    }

    /**
     Put `leaf` at its place below `nodeKey`, copying every node on the way.  If a leaf in the way
     has to be split below its own depth, the key does not land: nothing is lost of the writes, but
     following the key's nibbles does not find it.
     */
    method InsertAt(nodeKey: NodeKey, depth: nat, leaf: NodeData, ghost t: Option<Tree>) returns (newKey: NodeKey)
      requires Base() && depth <= MAX_DEPTH && |nodeKey.path| <= MAX_DEPTH
      requires leaf.LeafData? && leaf.key != ZERO_KEY && Valued(H, leaf, source.values, puts)
      requires RepOpt(H, View(), newVersion, nodeKey, t)
      requires t.Some? ==> nodeKey.path == ToPath(leaf.key)[..depth]
      requires t.Some? ==> Placed(t.value, nodeKey.path) && nodeKey.version <= newVersion
      requires InsertWithin(t, leaf.key, leaf.valueHash, depth)
      modifies this, source`entries, source`hits, source`misses
      ensures Base() && currentRoot == old(currentRoot)
      ensures newKey in writes && newKey.version == newVersion
      ensures SameOutside(old(View()), View(), newVersion, ToPath(leaf.key)[..depth])
      ensures Lands(t, leaf.key, depth) ==>
                && newKey == NodeKey(newVersion, ToPath(leaf.key)[..depth])
                && Rep(H, View(), newVersion, newVersion, newKey.path, Insert(t, leaf.key, leaf.valueHash, depth))
      ensures !Lands(t, leaf.key, depth) ==>
                Walk(View(), NodeKey(newVersion, ToPath(leaf.key)[..depth]), leaf.key, depth) == None
      ensures old(AllRegular(t, depth)) && leaf.version == newVersion ==>
          PathWritten(H, old(writes), writes, shadow, newVersion, strings, leaf.key, depth)
      decreases MAX_DEPTH - depth, 1
    {
      hide Rep, Kids, Placed, SameOutside, Shadows, Insert, Lands, Kid, ToPath, TreeUpdater.Base, TreeUpdater.View,
        PathWritten, Regular, PathKeys, Deep, Walk, Hashed;
      var target := ToPath(leaf.key);
      var node := GetNode(nodeKey);
      newKey := NodeKey(newVersion, target[..depth]);
      NodeFound(H, View(), newVersion, nodeKey, t);
      LandingCases(t, leaf.key, depth);
      ViewFacts();
      NoKids(H, View(), newVersion, newVersion, newKey.path);
      if node.None? && depth == MAX_DEPTH {
        PlaceLeaf(newKey, leaf, t, depth);
      } else if node.None? {
        var internal := new InternalNode(H, newVersion);
        InsertBelow(NO_KEY, depth, leaf, internal, newVersion, t);
      } else if node.value.InternalData? {
        var cloned := new InternalNode.Clone(H, node.value.children, newVersion);
        MarkStale(nodeKey);
        var nibble := target[depth];
        assert target[..depth + 1] == target[..depth] + [nibble];
        var childKey := NO_KEY;
        if nibble in node.value.children {
          childKey := nodeKey.Child(nibble, node.value.children[nibble].version);
        }
        InsertBelow(childKey, depth, leaf, cloned, nodeKey.version, t);
      } else if node.value.key == leaf.key {
        PlaceLeaf(newKey, leaf, t, depth);
        MarkStale(nodeKey);
      } else {
        LeafKeyFact(nodeKey);
        ghost var before := View();
        newKey := SplitLeafNodes(node.value, leaf, depth, t.value);
        SameOutsideWider(before, View(), newVersion, target[..depth], newKey.path);
        if |newKey.path| > depth {
          LostLeaf(H, before, View(), newVersion, nodeKey, t.value, leaf.key, depth, newKey.path);
        }
      }
    }

    /** Every string hashed for the tree after the insertion is among the known ones. */
    ghost predicate InsertWithin(t: Option<Tree>, k: Key, vh: Hash, d: nat) {
      d <= MAX_DEPTH && (Lands(t, k, d) ==> Hashed(H, Insert(t, k, vh, d)) <= strings)
    }

    /** Every string hashed for the tree after the deletion is among the known ones. */
    ghost predicate RemoveWithin(t: Tree, k: Key, d: nat) {
      Lookup(t, k, d).Some? && Remove(t, k, d).Some? ==> Hashed(H, Remove(t, k, d).value) <= strings
    }

    lemma KidWithin(t: Option<Tree>, k: Key, vh: Hash, d: nat)
      requires d < MAX_DEPTH && InsertWithin(t, k, vh, d) && (t.Some? ==> t.value.Branch?)
      requires Lands(t, k, d) <==> Lands(Kid(t, ToPath(k)[d]), k, d + 1)
      ensures InsertWithin(Kid(t, ToPath(k)[d]), k, vh, d + 1)
    {
      hide Lands, Insert, Hashed, ToPath, Kid;
      if Lands(t, k, d) {
        InsertBranch(t, k, vh, d);
        HashedKid(H, Insert(t, k, vh, d), ToPath(k)[d]);
      }
    }

    lemma RemovedKidWithin(t: Tree, k: Key, d: nat)
      requires d < MAX_DEPTH && t.Branch? && ToPath(k)[d] in t.kids && RemoveWithin(t, k, d)
      requires Lookup(t, k, d) == Lookup(t.kids[ToPath(k)[d]], k, d + 1)
      ensures RemoveWithin(t.kids[ToPath(k)[d]], k, d + 1)
    {
      hide Lookup, Hashed, ToPath, Remove, Collapse;
      var n := ToPath(k)[d];
      var kid := Remove(t.kids[n], k, d + 1);
      if Lookup(t, k, d).Some? && kid.Some? {
        DeleteUnfold(t, k, d);
        HashedThroughCollapse(H, Replace(t.kids, n, kid), n);
      }
    }

    /** Write `leaf` where the tree has nothing, or a leaf of the same key. */
    method PlaceLeaf(newKey: NodeKey, leaf: NodeData, ghost t: Option<Tree>, ghost depth: nat)
      requires Base() && depth <= MAX_DEPTH
      requires leaf.LeafData? && leaf.key != ZERO_KEY && Valued(H, leaf, source.values, puts)
      requires newKey == NodeKey(newVersion, ToPath(leaf.key)[..depth])
      requires if t.None? then depth == MAX_DEPTH else t.value.Leaf? && t.value.key == leaf.key
      requires InsertWithin(t, leaf.key, leaf.valueHash, depth)
      modifies `writes, `shadow
      ensures Base() && newKey in writes
      ensures Lands(t, leaf.key, depth)
      ensures Rep(H, View(), newVersion, newKey.version, newKey.path, Insert(t, leaf.key, leaf.valueHash, depth))
      ensures SameOutside(old(View()), View(), newVersion, newKey.path)
      ensures old(AllRegular(t, depth)) && leaf.version == newVersion ==>
          PathWritten(H, old(writes), writes, shadow, newVersion, strings, leaf.key, depth)
    {
      hide TreeUpdater.Base, TreeUpdater.View, Regular, PathKeys, ToPath;
      if AllRegular(t, depth) && leaf.version == newVersion {
        RegularWrite(H, writes, shadow, newVersion, strings, newKey, leaf, Leaf(leaf.key, leaf.valueHash));
        PathKeysUnfold(newVersion, ToPath(leaf.key), depth);
      }
      Write(newKey, leaf, Leaf(leaf.key, leaf.valueHash));
    }

    /**
     Replace a leaf by a branch over it and a new leaf.  The branch is keyed at the depth where
     the two keys part, which is the depth of the call only if they part right there; otherwise
     nothing is written where the parent of the old leaf will look.
     */
    method SplitLeafNodes(oldLeaf: NodeData, newLeaf: NodeData, depth: nat, ghost t: Tree) returns (key: NodeKey)
      requires Base() && depth < MAX_DEPTH
      requires oldLeaf.LeafData? && newLeaf.LeafData? && oldLeaf.key != newLeaf.key
      requires oldLeaf.key != ZERO_KEY && newLeaf.key != ZERO_KEY
      requires Valued(H, oldLeaf, source.values, puts) && Valued(H, newLeaf, source.values, puts)
      requires ToPath(oldLeaf.key)[..depth] == ToPath(newLeaf.key)[..depth]
      requires t == Leaf(oldLeaf.key, oldLeaf.valueHash)
      modifies this
      ensures Base() && currentRoot == old(currentRoot) && key in writes
      ensures var cd := |key.path|;
              && depth <= cd < MAX_DEPTH
              && ToPath(oldLeaf.key)[..cd] == ToPath(newLeaf.key)[..cd] &&
                   ToPath(oldLeaf.key)[cd] != ToPath(newLeaf.key)[cd]
              && key == NodeKey(newVersion, ToPath(newLeaf.key)[..cd])
              && Lands(Some(t), newLeaf.key, cd)
              && Rep(H, View(), newVersion, newVersion, key.path, Insert(Some(t), newLeaf.key, newLeaf.valueHash, cd))
      ensures SameOutside(old(View()), View(), newVersion, key.path)
      ensures Lands(Some(t), newLeaf.key, depth) <==> |key.path| == depth
      ensures |key.path| > depth ==>
                var expected := NodeKey(newVersion, ToPath(newLeaf.key)[..depth]); expected in View() <==>
                  expected in old(View())
      ensures var oldKey := NodeKey(newVersion, ToPath(oldLeaf.key)[..|key.path| + 1]);
              var newKey := NodeKey(newVersion, ToPath(newLeaf.key)[..|key.path| + 1]);
              key in writes && writes == old(writes)[oldKey := oldLeaf][newKey := newLeaf][key := writes[key]]
    {
      hide Rep, Placed, SameOutside, Shadows, ToPath, TreeUpdater.Base, TreeUpdater.View, Lands, Insert, Valued,
        ChildInfo;
      var commonDepth := Divergence(oldLeaf.key, newLeaf.key, depth);
      var oldPath, newPath := ToPath(oldLeaf.key), ToPath(newLeaf.key);
      var p := newPath[..commonDepth];
      var internal := new InternalNode(H, newVersion);
      var oldNibble, newNibble := oldPath[commonDepth], newPath[commonDepth];
      var oldKey := NodeKey(newVersion, oldPath[..commonDepth + 1]);
      var newKey := NodeKey(newVersion, newPath[..commonDepth + 1]);
      key := NodeKey(newVersion, p);
      assert oldPath[..commonDepth + 1] == p + [oldNibble] && newPath[..commonDepth + 1] == p + [newNibble];
      SplitStep(H, View(), newVersion, p, oldNibble, newNibble, oldLeaf, newLeaf);
      SplitLands(t, newLeaf.key, newLeaf.valueHash, depth, commonDepth);
      ghost var before := View();
      Write(oldKey, oldLeaf, t);
      var _ := internal.SetChild(oldNibble, ChildInfo(H, oldLeaf, newVersion));
      Write(newKey, newLeaf, Leaf(newLeaf.key, newLeaf.valueHash));
      var _ := internal.SetChild(newNibble, ChildInfo(H, newLeaf, newVersion));
      BranchValued(H, InternalData(internal.children, newVersion), source.values, puts);
      Write(key, InternalData(internal.children, newVersion),
            Insert(Some(t), newLeaf.key, newLeaf.valueHash, commonDepth));
      NothingAbove(before, View(), newVersion, newPath, depth, commonDepth);
    }

    /** Insert below one child of `node`, point `node` to the result and write it. */
    method InsertBelow(childKey: NodeKey, depth: nat, leaf: NodeData, node: InternalNode, ghost w: Version,
                       ghost t: Option<Tree>)
      requires Base() && depth < MAX_DEPTH
      requires leaf.LeafData? && leaf.key != ZERO_KEY && Valued(H, leaf, source.values, puts)
      requires node.Valid() && node.H == H && node.version == newVersion
      requires t.Some? ==> t.value.Branch? && Placed(t.value, ToPath(leaf.key)[..depth])
      requires Kids(H, View(), newVersion, node.children, w, ToPath(leaf.key)[..depth], KidsOf(t)) && w <= newVersion
      requires if ToPath(leaf.key)[depth] in node.children
        then childKey == NodeKey(node.children[ToPath(leaf.key)[depth]].version, ToPath(leaf.key)[..depth + 1])
        else childKey == NO_KEY
      requires InsertWithin(t, leaf.key, leaf.valueHash, depth)
      modifies this, node, source`entries, source`hits, source`misses
      ensures Base() && currentRoot == old(currentRoot)
      ensures NodeKey(newVersion, ToPath(leaf.key)[..depth]) in writes
      ensures SameOutside(old(View()), View(), newVersion, ToPath(leaf.key)[..depth])
      ensures Lands(t, leaf.key, depth) ==>
                Rep(H, View(), newVersion, newVersion, ToPath(leaf.key)[..depth],
                    Insert(t, leaf.key, leaf.valueHash, depth))
      ensures !Lands(t, leaf.key, depth) ==>
                Walk(View(), NodeKey(newVersion, ToPath(leaf.key)[..depth]), leaf.key, depth) == None
      ensures old(AllRegular(t, depth)) && leaf.version == newVersion ==>
          PathWritten(H, old(writes), writes, shadow, newVersion, strings, leaf.key, depth)
      decreases MAX_DEPTH - depth, 0
    {
      hide Rep, Kids, Placed, SameOutside, Shadows, Insert, Lands, Kid, ToPath, TreeUpdater.Base, TreeUpdater.View,
        RepOpt,
        ChildInfo, Regular, PathKeys, PathWritten, Deep, Walk, KeptOff, Valued, Hashed;
      ViewFacts();
      ChildReady(H, View(), node.children, newVersion, w, leaf.key, depth, t);
      ghost var regular := AllRegular(t, depth) && leaf.version == newVersion;
      if regular { DeepKids(t, ToPath(leaf.key)[depth], depth); }
      KidWithin(t, leaf.key, leaf.valueHash, depth);
      var newChildKey := InsertAt(childKey, depth + 1, leaf, Kid(t, ToPath(leaf.key)[depth]));
      ghost var middle, trees := writes, shadow;
      AfterInsert(newChildKey, depth, leaf, node, w, t, old(View()));
      if regular {
        RegularBranch(t, leaf.key, leaf.valueHash, depth);
        ghost var key := NodeKey(newVersion, ToPath(leaf.key)[..depth]);
        PathExtended(H, old(writes), middle, trees, newVersion, strings, leaf.key, depth, writes[key], shadow[key]);
      }
    }

    /** Point a node to the child below which a leaf has been inserted, and write it. */
    method AfterInsert(newChildKey: NodeKey, depth: nat, leaf: NodeData, node: InternalNode, ghost w: Version,
                       ghost t: Option<Tree>,
                       ghost a: NodeMap)
      requires Base() && depth < MAX_DEPTH && leaf.LeafData? && newChildKey in writes && w <= newVersion
      requires node.Valid() && node.H == H && node.version == newVersion
      requires t.Some? ==> t.value.Branch? && Placed(t.value, ToPath(leaf.key)[..depth])
      requires Kids(H, a, newVersion, node.children, w, ToPath(leaf.key)[..depth], KidsOf(t))
      requires SameOutside(a, View(), newVersion, ToPath(leaf.key)[..depth + 1])
      requires Lands(t, leaf.key, depth) <==> Lands(Kid(t, ToPath(leaf.key)[depth]), leaf.key, depth + 1)
      requires Lands(t, leaf.key, depth) ==>
                 var q := ToPath(leaf.key)[..depth + 1];
                 var kid := Kid(t, ToPath(leaf.key)[depth]);
                 && newChildKey == NodeKey(newVersion, q)
                 && Rep(H, View(), newVersion, newVersion, q, Insert(kid, leaf.key, leaf.valueHash, depth + 1))
      requires !Lands(t, leaf.key, depth) ==>
                 Walk(View(), NodeKey(newVersion, ToPath(leaf.key)[..depth + 1]), leaf.key, depth + 1) == None
      modifies `writes, `shadow, node
      ensures Base()
      ensures var key := NodeKey(newVersion, ToPath(leaf.key)[..depth]);
              && key in writes && key in shadow && writes[key].version == newVersion
              && writes == old(writes)[key := writes[key]] && shadow == old(shadow)[key := shadow[key]]
              && SameOutside(a, View(), newVersion, key.path)
              && (Lands(t, leaf.key, depth) ==>
                    && Rep(H, View(), newVersion, newVersion, key.path, Insert(t, leaf.key, leaf.valueHash, depth))
                    && shadow[key] == Insert(t, leaf.key, leaf.valueHash, depth))
              && (!Lands(t, leaf.key, depth) ==> Walk(View(), key, leaf.key, depth) == None)
    {
      hide Rep, Kids, Placed, SameOutside, Shadows, Insert, Lands, Kid, ToPath, TreeUpdater.Base, TreeUpdater.View,
        ChildInfo, Walk, Valued;
      var target := ToPath(leaf.key);
      var nibble := target[depth];
      InView(newChildKey);
      ghost var s: Tree;
      if Lands(t, leaf.key, depth) {
        InsertStep(H, a, View(), node.children, newVersion, w, leaf.key, leaf.valueHash, depth, t,
                   nibble, target[..depth], target[..depth + 1]);
        s := Insert(t, leaf.key, leaf.valueHash, depth);
      } else {
        ShadowOf(newChildKey);
        LostStep(H, a, View(), node.children, newVersion, w, leaf.key, depth, KidsOf(t),
                 nibble, target[..depth], target[..depth + 1], newChildKey, shadow[newChildKey]);
        s := Branch(KidsOf(t)[nibble := shadow[newChildKey]]);
      }
      var _ := node.SetChild(nibble, ChildInfo(H, writes[newChildKey], newVersion));
      BranchValued(H, InternalData(node.children, newVersion), source.values, puts);
      Write(NodeKey(newVersion, target[..depth]), InternalData(node.children, newVersion), s);
    }

    /** Remove `k` below `nodeKey`, copying the nodes on the way; without `k`, change nothing. */
    method DeleteAt(nodeKey: NodeKey, k: Key, depth: nat, ghost t: Option<Tree>)
      returns (newKey: NodeKey, deleted: bool)
      requires Base() && depth <= MAX_DEPTH && |nodeKey.path| <= MAX_DEPTH
      requires RepOpt(H, View(), newVersion, nodeKey, t)
      requires t.Some? ==>
          nodeKey.path == ToPath(k)[..depth] && Placed(t.value, nodeKey.path) && nodeKey.version <= newVersion
      requires t.Some? ==> RemoveWithin(t.value, k, depth)
      modifies this, source`entries, source`hits, source`misses
      ensures Base() && currentRoot == old(currentRoot)
      ensures deleted == LookupOpt(t, k, depth).Some?
      ensures !deleted ==> writes == old(writes) && shadow == old(shadow) && stale == old(stale)
      ensures deleted ==> SameOutside(old(View()), View(), newVersion, ToPath(k)[..depth])
      ensures deleted ==> Left(newKey, ToPath(k)[..depth], Remove(t.value, k, depth))
      ensures deleted && t.value.Leaf? ==> writes == old(writes)
      ensures deleted && old(AllRegular(t, depth)) && !HasTwin(t.value, k, depth) ==> AllRegular(None, depth)
      ensures deleted && old(AllRegular(t, depth)) && HasTwin(t.value, k, depth) && old(writes) == map[] ==>
          LiftedForeign(k)
      decreases MAX_DEPTH - depth, 1
    {
      hide Rep, Kids, Placed, SameOutside, Shadows, Remove, Collapse, ToPath, TreeUpdater.Base, TreeUpdater.View,
        Regular, Deep, HasTwin, RepOpt, Hashed;
      var target := ToPath(k);
      var node := GetNode(nodeKey);
      NodeFound(H, View(), newVersion, nodeKey, t);
      if node.None? { return NO_KEY, false; }
      if node.value.LeafData? {
        if ToPath(node.value.key) == target {
          ToPathInjective(node.value.key, k);
          LeafDeleted(t.value, k, depth);
          SameOutsideRefl(View(), newVersion, target[..depth]);
          MarkStale(nodeKey);
          return NO_KEY, true;
        }
        return nodeKey, false;
      }
      BranchIsHigh(t.value, nodeKey.path);
      if target[depth] !in node.value.children { 
        AbsentKid(H, View(), newVersion, node.value.children, nodeKey.version, nodeKey.path, t.value, k, depth);
        return nodeKey, false;
      }
      newKey, deleted := DeleteBelow(nodeKey, node.value.children, k, depth, t.value);
    }

    /** Delete below the child of a node that `k` leads to, then rebuild the node. */
    method DeleteBelow(nodeKey: NodeKey, children: map<Nibble, Child>, k: Key, depth: nat, ghost t: Tree)
      returns (newKey: NodeKey, deleted: bool)
      requires Base() && depth < MAX_DEPTH && nodeKey.path == ToPath(k)[..depth] && nodeKey.version <= newVersion
      requires t.Branch? && Placed(t, nodeKey.path)
      requires Kids(H, View(), newVersion, children, nodeKey.version, nodeKey.path, t.kids)
      requires ToPath(k)[depth] in children && RemoveWithin(t, k, depth)
      modifies this, source`entries, source`hits, source`misses
      ensures Base() && currentRoot == old(currentRoot)
      ensures deleted == Lookup(t, k, depth).Some?
      ensures !deleted ==> writes == old(writes) && shadow == old(shadow) && stale == old(stale)
      ensures deleted ==> SameOutside(old(View()), View(), newVersion, ToPath(k)[..depth])
      ensures deleted ==> Left(newKey, ToPath(k)[..depth], Remove(t, k, depth))
      ensures deleted && old(AllRegular(Some(t), depth)) && !HasTwin(t, k, depth) ==> AllRegular(None, depth)
      ensures deleted && old(AllRegular(Some(t), depth)) && HasTwin(t, k, depth) && old(writes) == map[] ==>
          LiftedForeign(k)
      decreases MAX_DEPTH - depth, 0
    {
      hide Rep, Kids, Placed, SameOutside, Shadows, Remove, Collapse, ToPath, TreeUpdater.Base, TreeUpdater.View,
        Regular, Deep, HasTwin, Replace, LiftedForeign, Lookup, Hashed;
      var target := ToPath(k);
      var nibble := target[depth];
      assert target[..depth + 1] == target[..depth] + [nibble];
      KidReady(H, View(), newVersion, children, nodeKey.version, nodeKey.path, t, k, nibble, depth);
      RemovedKidWithin(t, k, depth);
      var newChildKey;
      newChildKey, deleted :=
        DeleteAt(nodeKey.Child(nibble, children[nibble].version), k, depth + 1, Kid(Some(t), nibble));
      if !deleted { return nodeKey, false; }
      if old(AllRegular(Some(t), depth)) {
        DeepDeletion(t, k, target[..depth]);
      }
      newKey := AfterDelete(nodeKey, children, k, depth, newChildKey, old(View()), t);
    }

    /** Rebuild a node after a deletion below it. */
    method AfterDelete(nodeKey: NodeKey, children: map<Nibble, Child>, k: Key, depth: nat, newChildKey: NodeKey,
                       ghost a: NodeMap, ghost t: Tree)
      returns (newKey: NodeKey)
      requires Base() && depth < MAX_DEPTH && nodeKey.version <= newVersion
      requires t.Branch? && Placed(t, ToPath(k)[..depth]) && Lookup(t, k, depth).Some?
      requires Kids(H, a, newVersion, children, nodeKey.version, ToPath(k)[..depth], t.kids)
      requires ToPath(k)[depth] in t.kids
      requires SameOutside(a, View(), newVersion, ToPath(k)[..depth + 1])
      requires Left(newChildKey, ToPath(k)[..depth + 1], Remove(t.kids[ToPath(k)[depth]], k, depth + 1))
      requires RemoveWithin(t, k, depth)
      modifies this, source`entries, source`hits, source`misses
      ensures Base() && currentRoot == old(currentRoot)
      ensures SameOutside(a, View(), newVersion, ToPath(k)[..depth])
      ensures Left(newKey, ToPath(k)[..depth], Remove(t, k, depth))
      ensures old(AllRegular(None, 0)) && Deep(t, depth) && !HasTwin(t, k, depth) ==> AllRegular(None, depth)
      ensures Deep(t, depth) && HasTwin(t, k, depth) ==>
        if depth < MAX_DEPTH - 1 then old(LiftedForeign(k)) ==> LiftedForeign(k) else old(writes) == map[] ==>
          LiftedForeign(k)
    {
      hide Rep, Kids, KidsPlaced, Placed, SameOutside, Shadows, Remove, Collapse, ToPath, TreeUpdater.Base,
        TreeUpdater.View,
        Regular, Deep, HasTwin, Replace, Lookup, Hashed;
      ghost var p := ToPath(k)[..depth];
      ghost var kids := Replace(t.kids, ToPath(k)[depth], Remove(t.kids[ToPath(k)[depth]], k, depth + 1));
      MarkStale(nodeKey);
      DeleteUnfold(t, k, depth);
      var cloned := Relinked(nodeKey, children, k, depth, newChildKey, a, t);
      if Deep(t, depth) {
        DeepDeletion(t, k, p);
        if depth == MAX_DEPTH - 1 && HasTwin(t, k, depth) {
          TwinLifts(t, k, p, depth);
        }
      }
      ghost var v1 := View();
      newKey := CollapseOrWrite(nodeKey, ToPath(k)[..depth], cloned, kids);
      SameOutsideTwice(a, v1, View(), newVersion, p, ToPath(k)[..depth + 1]);
    }

    /** A copy of a node without the child that has vanished, or with the child that was rebuilt. */
    method Relinked(nodeKey: NodeKey, children: map<Nibble, Child>, k: Key, depth: nat, newChildKey: NodeKey,
                    ghost a: NodeMap, ghost t: Tree)
      returns (cloned: InternalNode)
      requires depth < MAX_DEPTH && nodeKey.version <= newVersion
      requires t.Branch? && Placed(t, ToPath(k)[..depth]) && Lookup(t, k, depth).Some?
      requires Kids(H, a, newVersion, children, nodeKey.version, ToPath(k)[..depth], t.kids)
      requires ToPath(k)[depth] in t.kids
      requires SameOutside(a, View(), newVersion, ToPath(k)[..depth + 1])
      requires Left(newChildKey, ToPath(k)[..depth + 1], Remove(t.kids[ToPath(k)[depth]], k, depth + 1))
      ensures fresh(cloned) && cloned.Valid() && cloned.H == H && cloned.version == newVersion
      ensures var kids := Replace(t.kids, ToPath(k)[depth], Remove(t.kids[ToPath(k)[depth]], k, depth + 1));
              && KidsPlaced(kids, ToPath(k)[..depth])
              && Kids(H, View(), newVersion, cloned.children, newVersion, ToPath(k)[..depth], kids)
    {
      hide Rep, Kids, KidsPlaced, Placed, SameOutside, Remove, ToPath, TreeUpdater.View, Replace, Lookup;
      var nibble := ToPath(k)[depth];
      ghost var p := ToPath(k)[..depth];
      ghost var kid := Remove(t.kids[nibble], k, depth + 1);
      assert ToPath(k)[..depth + 1] == p + [nibble];
      DeletedKidsPlaced(t, k, p);
      if newChildKey in writes { InView(newChildKey); }
      ReplacedKids(H, a, View(), children, newVersion, nodeKey.version, p, t.kids, nibble, kid);
      cloned := new InternalNode.Clone(H, children, newVersion);
      if newChildKey.version == 0 {
        cloned.RemoveChild(nibble);
      } else {
        var _ := cloned.SetChild(nibble, ChildInfo(H, writes[newChildKey], newVersion));
      }
    }

    /** Above `k` a leaf of an older version has been lifted to depth 63. */
    ghost predicate LiftedForeign(k: Key)
      reads `writes
    {
      var key := NodeKey(newVersion, ToPath(k)[..MAX_DEPTH - 1]);
      key in writes && writes[key].version != newVersion
    }

    /** What a deletion leaves at `p`: nothing, or a node of the new version. */
    ghost predicate Left(key: NodeKey, p: Path, t: Option<Tree>)
      reads `writes, source`nodes
    {
      match t
      case None => key == NO_KEY
      case Some(t) => key == NodeKey(newVersion, p) && key in writes && Rep(H, View(), newVersion, newVersion, p, t)
    }

    /** Write the only child of a node, a leaf, in the node's own place. */
    method LiftLeaf(p: Path, nibble: Nibble, child: Child, ghost kids: map<Nibble, Tree>)
      requires Base() && |p| < MAX_DEPTH && child.isLeaf
      requires Kids(H, View(), newVersion, map[nibble := child], newVersion, p, kids)
      requires KidsPlaced(kids, p)
      modifies `writes, `shadow, source`entries, source`hits, source`misses
      ensures Base() && SameOutside(old(View()), View(), newVersion, p)
      ensures nibble in kids && kids[nibble].Leaf? && Left(NodeKey(newVersion, p), p, Some(kids[nibble]))
      ensures NodeKey(child.version, p + [nibble]) in old(View())
      ensures writes == old(writes)[NodeKey(newVersion, p) := old(View())[NodeKey(child.version, p + [nibble])]]
      ensures old(writes) == map[] ==> writes[NodeKey(newVersion, p)].version != newVersion
    {
      hide Rep, Kids, KidsPlaced, Placed, SameOutside, Shadows, ToPath, TreeUpdater.Base, TreeUpdater.View;
      var newKey := NodeKey(newVersion, p);
      var leaf := GetNode(newKey.Child(nibble, child.version));
      LoneLeaf(H, View(), map[nibble := child], newVersion, p, kids, nibble);
      LeafKeyFact(NodeKey(child.version, p + [nibble]));
      LeafShadows(H, newKey, leaf.value);
      if writes == map[] { StoredNodeVersion(NodeKey(child.version, p + [nibble])); }
      SameOutsideSelf(View(), newVersion, p, leaf.value);
      Write(newKey, leaf.value, kids[nibble]);
      InView(newKey);
      LeafRep(H, View(), newVersion, p);
    }

    /** An emptied node vanishes, a lone leaf takes its parent's place, any other node is written. */
    method CollapseOrWrite(nodeKey: NodeKey, p: Path, node: InternalNode, ghost kids: map<Nibble, Tree>)
      returns (newKey: NodeKey)
      requires Base() && |p| < MAX_DEPTH
      requires node.Valid() && node.H == H && node.version == newVersion && nodeKey.version <= newVersion
      requires Kids(H, View(), newVersion, node.children, newVersion, p, kids)
      requires KidsPlaced(kids, p)
      requires Collapse(kids).Some? ==> Hashed(H, Collapse(kids).value) <= strings
      modifies this, source`entries, source`hits, source`misses
      ensures Base() && currentRoot == old(currentRoot)
      ensures SameOutside(old(View()), View(), newVersion, p)
      ensures Left(newKey, p, Collapse(kids))
      ensures old(AllRegular(Collapse(kids), |p|)) ==> AllRegular(None, 0)
      ensures AtMostOneWrite(old(writes), writes, NodeKey(newVersion, p))
      ensures old(writes) == map[] && Collapse(kids).Some? && Collapse(kids).value.Leaf? ==>
          writes[NodeKey(newVersion, p)].version != newVersion
    {
      hide Rep, Kids, KidsPlaced, Placed, SameOutside, Shadows, Collapse, ToPath, TreeUpdater.Base, TreeUpdater.View,
        Regular, Deep;
      newKey := NodeKey(newVersion, p);
      CollapseCases(H, View(), node.children, newVersion, p, kids);
      SameOutsideRefl(View(), newVersion, p);
      DeepCollapse(kids, |p|);
      MarkStale(nodeKey);
      if |node.children| == 0 { return NO_KEY; }
      var nibble, onlyChild, ok := node.GetOnlyChild();
      if ok && onlyChild.isLeaf {
        LiftLeaf(p, nibble, onlyChild, kids);
        return;
      }
      ParentWritten(H, View(), node.children, newVersion, p, kids);
      ParentShadows(H, View(), node.children, newVersion, p, kids);
      SameOutsideSelf(View(), newVersion, p, InternalData(node.children, newVersion));
      if AllRegular(Collapse(kids), |p|) {
        RegularWrite(H, writes, shadow, newVersion, strings, newKey, InternalData(node.children, newVersion),
                     Branch(kids));
      }
      Write(newKey, InternalData(node.children, newVersion), Branch(kids));
    }

    // ----- Operations -----

    /** The current root stands for `t`. */
    ghost predicate StandsFor(t: Option<Tree>)
      reads `writes, `currentRoot, source`nodes
    {
      RepOpt(H, View(), newVersion, currentRoot, t) && PlacedOpt(t) && currentRoot.path == [] &&
        currentRoot.version <= newVersion
    }

    /**
     Insert or replace a value.  The value is found again, by following the key's nibbles from the
     version's root, if and only if the key lands.
     */
    method Put(key: Key, value: Bytes, ghost t: Option<Tree>) returns (ok: bool)
      requires Base() && StandsFor(t) && value in puts && InsertWithin(t, key, H(value), 0)
      modifies this, source`entries, source`hits, source`misses
      ensures Base()
      ensures ok <==> key != ZERO_KEY && 0 < |value| <= MAX_VALUE_SIZE
      ensures ok && Lands(t, key, 0) ==>
                StandsFor(Some(Insert(t, key, H(value), 0))) && currentRoot == RootNodeKey(newVersion)
      ensures ok ==> (Walk(View(), RootNodeKey(newVersion), key, 0) == Some(H(value)) <==> Lands(t, key, 0))
      ensures ok && !Lands(t, key, 0) ==> Walk(View(), RootNodeKey(newVersion), key, 0) == None
      ensures ok && old(AllRegular(t, 0)) ==> PathWritten(H, old(writes), writes, shadow, newVersion, strings, key, 0)
      ensures SameOutside(old(View()), View(), newVersion, [])
      ensures !ok ==>
          writes == old(writes) && shadow == old(shadow) && stale == old(stale) && currentRoot == old(currentRoot)
    {
      hide Rep, Placed, SameOutside, Insert, Lands, ToPath, TreeUpdater.Base, TreeUpdater.View, PathWritten,
        Regular, PathKeys, Deep, Walk;
      SameOutsideRefl(View(), newVersion, []);
      if key == ZERO_KEY || |value| == 0 || |value| > MAX_VALUE_SIZE { return false; }
      var leaf := LeafData(key, H(value), Some(value), newVersion);
      var newRootKey := InsertAt(currentRoot, 0, leaf, t);
      assert ToPath(key)[..0] == [];
      if Lands(t, key, 0) {
        InsertIsPlaced(t, key, H(value), []);
        InsertedIsFound(H, View(), newVersion, t, key, H(value));
      }
      currentRoot := newRootKey;
      return true;
    }

    /** Remove a key; refused when the key is not there. */
    method Delete(key: Key, ghost t: Option<Tree>) returns (ok: bool)
      requires Base() && StandsFor(t) && (t.Some? ==> RemoveWithin(t.value, key, 0))
      modifies this, source`entries, source`hits, source`misses
      ensures Base()
      ensures ok <==> key != ZERO_KEY && LookupOpt(t, key, 0).Some?
      ensures ok ==>
          StandsFor(RemoveOpt(t, key)) &&
            currentRoot == if RemoveOpt(t, key).None? then NO_KEY else RootNodeKey(newVersion)
      ensures ok && old(AllRegular(t, 0)) && !HasTwin(t.value, key, 0) ==> AllRegular(None, 0)
      ensures ok && old(AllRegular(t, 0)) && HasTwin(t.value, key, 0) && old(writes) == map[] ==>
          LiftedForeign(key) && currentRoot != NO_KEY
      ensures SameOutside(old(View()), View(), newVersion, [])
      ensures !ok ==>
          writes == old(writes) && shadow == old(shadow) && stale == old(stale) && currentRoot == old(currentRoot)
    {
      hide Rep, Placed, SameOutside, Remove, ToPath, TreeUpdater.Base, TreeUpdater.View, Regular, Deep, HasTwin,
        LiftedForeign, Lookup;
      SameOutsideRefl(View(), newVersion, []);
      if key == ZERO_KEY { return false; }
      var newRootKey, deleted := DeleteAt(currentRoot, key, 0, t);
      if !deleted { return false; }
      DeletedPlaced(t.value, key);
      ViewFacts();
      if old(AllRegular(t, 0)) { DeepDeletedRoot(t.value, key); }
      currentRoot := newRootKey;
      return true;
    }

    /** The root hash and the nodes to store; refused when validation fails or the old root is missing. */
    method BuildUpdateBatch(ghost t: Option<Tree>) returns (ok: bool, rootHash: Hash, newNodes: NodeMap)
      requires Base() && StandsFor(t)
      modifies source`entries, source`hits, source`misses
      ensures Base() && StandsFor(t)
      ensures currentRoot == NO_KEY ==> ok && rootHash == ZERO && newNodes == map[]
      ensures currentRoot != NO_KEY && t.None? ==> !ok
      ensures currentRoot != NO_KEY && t.Some? ==> (ok <==> Acceptable(H, writes, stale, newVersion))
      ensures currentRoot != NO_KEY && ok ==> t.Some? && rootHash == RootHash(H, t) && newNodes == writes
    {
      hide Rep, Placed, TreeUpdater.Base, TreeUpdater.View, Acceptable;
      if currentRoot.version == 0 { return true, ZERO, map[]; }
      var root := GetNode(currentRoot);
      NodeFound(H, View(), newVersion, currentRoot, t);
      if root.None? { return false, ZERO, map[]; }
      RepHash(H, View(), newVersion, currentRoot.version, currentRoot.path, t.value);
      rootHash, newNodes := DataHash(H, root.value), writes;
      ok := ValidateBatch(H, writes, stale, newVersion);
    }
  }

  /** The first depth, from `depth` on, at which two keys part. */
  method Divergence(a: Key, b: Key, depth: nat) returns (d: nat)
    requires a != b && depth < MAX_DEPTH && ToPath(a)[..depth] == ToPath(b)[..depth]
    ensures depth <= d < MAX_DEPTH && ToPath(a)[..d] == ToPath(b)[..d] && ToPath(a)[d] != ToPath(b)[d]
  {
    hide ToPath;
    var p, q := ToPath(a), ToPath(b);
    d := depth;
    while d < MAX_DEPTH && p[d] == q[d]
      invariant depth <= d <= MAX_DEPTH && p[..d] == q[..d]
    {
      d := d + 1;
    }
    if d == MAX_DEPTH {
      assert p == q;
      ToPathInjective(a, b);
    }
  }

  /** Where the new leaf of a split lands. */
  lemma SplitLands(t: Tree, k: Key, vh: Hash, depth: nat, d: nat)
    requires t.Leaf? && t.key != k && depth <= d < MAX_DEPTH
    requires ToPath(t.key)[..d] == ToPath(k)[..d] && ToPath(t.key)[d] != ToPath(k)[d]
    ensures Lands(Some(t), k, d) && (Lands(Some(t), k, depth) <==> d == depth)
    ensures Insert(Some(t), k, vh, d) == Branch(map[ToPath(t.key)[d] := t][ToPath(k)[d] := Leaf(k, vh)])
  {
    hide ToPath;
    if depth < d {
      assert ToPath(t.key)[depth] == ToPath(t.key)[..d][depth] == ToPath(k)[..d][depth] == ToPath(k)[depth];
    }
  }

  lemma NothingAbove(a: NodeMap, b: NodeMap, v: Version, path: Path, depth: nat, d: nat)
    requires depth <= d <= |path| && SameOutside(a, b, v, path[..d])
    ensures depth < d ==> (NodeKey(v, path[..depth]) in b <==> NodeKey(v, path[..depth]) in a)
  {
  }

  /** In a tree with all leaves at depth 64 a key lands, and the tree with it is in its place and as deep. */
  lemma RegularBranch(t: Option<Tree>, k: Key, vh: Hash, d: nat)
    requires d <= MAX_DEPTH && (t.Some? ==> Placed(t.value, ToPath(k)[..d]) && Deep(t.value, d))
    ensures Lands(t, k, d) && Placed(Insert(t, k, vh, d), ToPath(k)[..d]) && Deep(Insert(t, k, vh, d), d)
  {
    hide *;
    InsertIsDeep(t, k, vh, ToPath(k)[..d]);
    InsertIsPlaced(t, k, vh, ToPath(k)[..d]);
  }

  lemma InsertedIsFound(H: Hasher, nodes: NodeMap, v: Version, t: Option<Tree>, k: Key, vh: Hash)
    requires Lands(t, k, 0) && Placed(Insert(t, k, vh, 0), []) && Rep(H, nodes, v, v, [], Insert(t, k, vh, 0))
    ensures Walk(nodes, RootNodeKey(v), k, 0) == Some(vh)
  {
    hide Lands, Placed, Rep, Insert, Walk, Lookup;
    WalkIsLookup(H, nodes, v, v, [], Insert(t, k, vh, 0), k);
    InsertLookup(t, k, vh, 0, k);
  }

  lemma BranchValued(H: Hasher, d: NodeData, values: map<Hash, Bytes>, puts: set<Bytes>)
    requires d.InternalData?
    ensures Valued(H, d, values, puts)
  {
  }
}
