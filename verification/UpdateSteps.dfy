/**
 What one level of an insertion or deletion does to the pending writes, step by step
 (pkg/tree/tree_updater.go).
 */
module UpdateSteps {
  import opened Types
  import opened Merkle
  import opened TreeMap
  import opened Nodes
  import opened NodeStore

  /** Stored nodes have a real version, never the pending one, and no leaf for the zero key. */
  ghost predicate StoredOk(nodes: NodeMap, pending: Version) {
    forall key :: key in nodes ==>
      0 < key.version == nodes[key].version && key.version != pending &&
        (nodes[key].LeafData? ==> nodes[key].key != ZERO_KEY)
  }

  /** A pending write and the tree it stood for when it was written. */
  ghost predicate Shadows(H: Hasher, key: NodeKey, d: NodeData, t: Tree, v: Version) {
    key.version == v && |key.path| <= MAX_DEPTH &&
    DataPreimage(d) == Preimage(H, t) &&
    (d.LeafData? ==> d.key != ZERO_KEY) &&
    (d.InternalData? ==> d.version == v && forall n | n in d.children :: d.children[n].version <= v)
  }

  ghost predicate WritesShadowed(H: Hasher, writes: NodeMap, shadow: map<NodeKey, Tree>, v: Version) {
    writes.Keys == shadow.Keys &&
    forall key :: key in writes ==> Shadows(H, key, writes[key], shadow[key], v)
  }

  /** The pending writes of version `v` fit the stored nodes and values. */
  ghost predicate PendingOk(H: Hasher, nodes: NodeMap, values: map<Hash, Bytes>, v: Version,
                            writes: NodeMap, stale: seq<NodeKey>, shadow: map<NodeKey, Tree>, puts: set<Bytes>) {
    StoredOk(nodes, v) && WritesShadowed(H, writes, shadow, v) && AllValued(H, nodes + writes, values, puts) &&
    forall key | key in stale :: key.version <= v
  }

  /**
   A pending node is stamped with the new version and stood for a tree in its place, with leaves at
   depth 64; every string hashed for that tree is among `strings`.
   */
  ghost predicate RegularNode(H: Hasher, key: NodeKey, d: NodeData, t: Tree, v: Version, strings: set<Bytes>) {
    d.version == v && Placed(t, key.path) && Deep(t, |key.path|) && Hashed(H, t) <= strings
  }

  ghost predicate Regular(H: Hasher, writes: NodeMap, shadow: map<NodeKey, Tree>, v: Version, strings: set<Bytes>)
    requires writes.Keys == shadow.Keys
  {
    forall key :: key in writes ==> RegularNode(H, key, writes[key], shadow[key], v, strings)
  }

  /** The keys of the nodes on `path` from depth `d` to the leaf. */
  ghost function PathKeys(v: Version, path: Path, d: nat): set<NodeKey>
    requires |path| == MAX_DEPTH
  {
    set j | d <= j <= MAX_DEPTH :: NodeKey(v, path[..j])
  }

  lemma PathKeysUnfold(v: Version, path: Path, d: nat)
    requires |path| == MAX_DEPTH && d <= MAX_DEPTH
    ensures d == MAX_DEPTH ==> PathKeys(v, path, d) == {NodeKey(v, path[..d])}
    ensures PathKeys(v, path, d) == PathKeys(v, path, d + 1) + {NodeKey(v, path[..d])}
  {
  }

  lemma RegularWrite(H: Hasher, writes: NodeMap, shadow: map<NodeKey, Tree>, v: Version, strings: set<Bytes>,
                     key: NodeKey, d: NodeData, t: Tree)
    requires writes.Keys == shadow.Keys && Regular(H, writes, shadow, v, strings)
    requires RegularNode(H, key, d, t, v, strings)
    ensures Regular(H, writes[key := d], shadow[key := t], v, strings)
  {
    hide RegularNode;
  }

  /** More strings do no harm. */
  lemma RegularMore(H: Hasher, writes: NodeMap, shadow: map<NodeKey, Tree>, v: Version, a: set<Bytes>, b: set<Bytes>)
    requires writes.Keys == shadow.Keys && Regular(H, writes, shadow, v, a) && a <= b
    ensures Regular(H, writes, shadow, v, b)
  {
    hide Placed, Deep, Hashed;
    forall key | key in writes
      ensures RegularNode(H, key, writes[key], shadow[key], v, b)
    {
      assert RegularNode(H, key, writes[key], shadow[key], v, a);
    }
  }

  lemma DeepKids(t: Option<Tree>, n: Nibble, d: nat)
    requires t.Some? ==> t.value.Branch? && Deep(t.value, d)
    ensures Kid(t, n).Some? ==> Deep(Kid(t, n).value, d + 1)
  {
  }

  lemma WriteShadowed(H: Hasher, writes: NodeMap, shadow: map<NodeKey, Tree>, v: Version, key: NodeKey, d: NodeData,
                      t: Tree)
    requires WritesShadowed(H, writes, shadow, v) && Shadows(H, key, d, t, v)
    ensures WritesShadowed(H, writes[key := d], shadow[key := t], v)
  {
    hide Shadows;
  }

  lemma WriteOverlay(nodes: NodeMap, writes: NodeMap, key: NodeKey, d: NodeData)
    ensures nodes + writes[key := d] == (nodes + writes)[key := d]
  {
  }

  /** The child that an insertion continues with. */
  lemma ChildReady(H: Hasher, nodes: NodeMap, children: map<Nibble, Child>, v: Version, w: Version, k: Key, d: nat,
                   t: Option<Tree>)
    requires d < MAX_DEPTH && w <= v && NO_KEY !in nodes
    requires t.Some? ==> t.value.Branch? && Placed(t.value, ToPath(k)[..d])
    requires Kids(H, nodes, v, children, w, ToPath(k)[..d], KidsOf(t))
    ensures var n := ToPath(k)[d];
            var key := if n in children then NodeKey(children[n].version, ToPath(k)[..d + 1]) else NO_KEY;
            && RepOpt(H, nodes, v, key, Kid(t, n))
            && (Kid(t, n).Some? ==> key.path == ToPath(k)[..d + 1] && Placed(Kid(t, n).value, key.path))
            && (Kid(t, n).Some? ==> key.version <= v)
            && (Lands(t, k, d) <==> Lands(Kid(t, n), k, d + 1))
  {
    hide Rep;
    hide ToPath;
    assert ToPath(k)[..d + 1] == ToPath(k)[..d] + [ToPath(k)[d]];
  }

  lemma ParentShadows(H: Hasher, nodes: NodeMap, children: map<Nibble, Child>, v: Version, p: Path,
                      kids: map<Nibble, Tree>)
    requires Kids(H, nodes, v, children, v, p, kids)
    requires Rep(H, nodes[NodeKey(v, p) := InternalData(children, v)], v, v, p, Branch(kids))
    requires |p| <= MAX_DEPTH
    ensures Shadows(H, NodeKey(v, p), InternalData(children, v), Branch(kids), v)
  {
    hide Rep;
    RepHash(H, nodes[NodeKey(v, p) := InternalData(children, v)], v, v, p, Branch(kids));
  }

  /** One level of insertion: with the child rebuilt in `b`, the parent completes the new tree. */
  lemma InsertStep(H: Hasher, a: NodeMap, b: NodeMap, children: map<Nibble, Child>, v: Version, w: Version, k: Key,
                   vh: Hash, d: nat, t: Option<Tree>, n: Nibble, p: Path, q: Path)
    requires d < MAX_DEPTH && 0 < v && w <= v
    requires n == ToPath(k)[d] && p == ToPath(k)[..d] && q == ToPath(k)[..d + 1]
    requires t.Some? ==> t.value.Branch? && Placed(t.value, p)
    requires Lands(t, k, d) && Lands(Kid(t, n), k, d + 1)
    requires Kids(H, a, v, children, w, p, KidsOf(t))
    requires SameOutside(a, b, v, q)
    requires Rep(H, b, v, v, q, Insert(Kid(t, n), k, vh, d + 1)) && NodeKey(v, q) in b
    ensures var data := InternalData(children[n := ChildInfo(H, b[NodeKey(v, q)], v)], v);
            && Rep(H, b[NodeKey(v, p) := data], v, v, p, Insert(t, k, vh, d))
            && Shadows(H, NodeKey(v, p), data, Insert(t, k, vh, d), v)
            && SameOutside(a, b[NodeKey(v, p) := data], v, p)
  {
    hide *;
    var kids := KidsOf(t);
    var t1 := Insert(Kid(t, n), k, vh, d + 1);
    var children' := children[n := ChildInfo(H, b[NodeKey(v, q)], v)];
    InsertBranch(t, k, vh, d);
    assert q == p + [n];
    InfoRefers(H, b, v, q, t1);
    KidsRebuilt(H, a, b, children, v, w, p, kids, n, ChildInfo(H, b[NodeKey(v, q)], v), t1);
    ParentWritten(H, b, children', v, p, kids[n := t1]);
    ParentShadows(H, b, children', v, p, kids[n := t1]);
    SameOutsideWrite(a, b, v, p, q, InternalData(children', v));
  }

  /** A child was split out of its place: the parent records its hash, and the key is not found below the parent. */
  lemma LostStep(H: Hasher, a: NodeMap, b: NodeMap, children: map<Nibble, Child>, v: Version, w: Version, k: Key,
                 d: nat,
                 kids: map<Nibble, Tree>, n: Nibble, p: Path, q: Path, key: NodeKey, s: Tree)
    requires d < MAX_DEPTH && 0 < v && w <= v
    requires n == ToPath(k)[d] && p == ToPath(k)[..d] && q == ToPath(k)[..d + 1]
    requires Kids(H, a, v, children, w, p, kids) && SameOutside(a, b, v, q)
    requires key in b && Shadows(H, key, b[key], s, v) && Walk(b, NodeKey(v, q), k, d + 1) == None
    ensures var data := InternalData(children[n := ChildInfo(H, b[key], v)], v);
            && Shadows(H, NodeKey(v, p), data, Branch(kids[n := s]), v)
            && SameOutside(a, b[NodeKey(v, p) := data], v, p)
            && Walk(b[NodeKey(v, p) := data], NodeKey(v, p), k, d) == None
  {
    hide *;
    var data := InternalData(children[n := ChildInfo(H, b[key], v)], v);
    assert q == p + [n];
    LostShadows(H, a, children, v, w, p, kids, n, key, b[key], s);
    SameOutsideWrite(a, b, v, p, q, data);
    WalkUnfold(b[NodeKey(v, p) := data], NodeKey(v, p), k, d, ChildInfo(H, b[key], v));
    WalkFrame(b, b[NodeKey(v, p) := data], NodeKey(v, q), k, d + 1);
  }

  lemma LostShadows(H: Hasher, a: NodeMap, children: map<Nibble, Child>, v: Version, w: Version, p: Path,
                    kids: map<Nibble, Tree>, n: Nibble, key: NodeKey, d: NodeData, s: Tree)
    requires Kids(H, a, v, children, w, p, kids) && w <= v && Shadows(H, key, d, s, v) && |p| <= MAX_DEPTH
    ensures Shadows(H, NodeKey(v, p), InternalData(children[n := ChildInfo(H, d, v)], v), Branch(kids[n := s]), v)
  {
    hide Rep, InternalPreimage, Preimage, TreeHash, DataPreimage;
    ShadowHash(H, key, d, s, v);
    assert forall i | i in children :: RefersTo(H, children[i], w, kids[i]);
    BranchShadows(H, children[n := ChildInfo(H, d, v)], v, p, kids[n := s]);
  }

  lemma ShadowHash(H: Hasher, key: NodeKey, d: NodeData, s: Tree, v: Version)
    requires Shadows(H, key, d, s, v)
    ensures TreeHash(H, s) == DataHash(H, d)
  {
    hide Preimage;
  }

  /** A branch whose references carry the hashes of the kids is written for the tree of the kids. */
  lemma BranchShadows(H: Hasher, children: map<Nibble, Child>, v: Version, p: Path, kids: map<Nibble, Tree>)
    requires children.Keys == kids.Keys && |p| <= MAX_DEPTH
    requires forall n | n in kids :: children[n].hash == TreeHash(H, kids[n]) && children[n].version <= v
    ensures Shadows(H, NodeKey(v, p), InternalData(children, v), Branch(kids), v)
  {
    hide InternalPreimage, TreeHash;
    assert ChildHashes(children) == KidHashes(H, Branch(kids));
  }

  /** A leaf was split below the depth of the call: where its parent looks there still is the leaf, or nothing. */
  lemma LostLeaf(H: Hasher, a: NodeMap, b: NodeMap, v: Version, key: NodeKey, t: Tree, k: Key, d: nat, q: Path)
    requires Rep(H, a, v, key.version, key.path, t) && t.Leaf? && t.key != k && d <= MAX_DEPTH
    requires SameOutside(a, b, v, q) && |key.path| < |q|
    ensures Walk(b, NodeKey(v, key.path), k, d) == None
  {
    hide ToPath;
    assert !(q <= key.path);
    assert NodeKey(v, key.path) in b ==> key.version == v && b[key] == a[key];
  }

  /** On a stored tree, walking down is lookup. */
  lemma {:induction false} WalkIsLookup(H: Hasher, nodes: NodeMap, u: Version, w: Version, p: Path, t: Tree, k: Key)
    requires Rep(H, nodes, u, w, p, t) && Placed(t, p) && |p| <= MAX_DEPTH
    ensures Walk(nodes, NodeKey(w, p), k, |p|) == Lookup(t, k, |p|)
    decreases t
  {
    hide Rep, Placed, Lookup, Walk, ToPath, Kids;
    var key := NodeKey(w, p);
    NodeFound(H, nodes, u, key, Some(t));
    if t.Leaf? {
      WalkAtLeaf(nodes, key, t, k, |p|);
    } else {
      BranchIsHigh(t, p);
      var n, children := ToPath(k)[|p|], nodes[key].children;
      if n in children {
        KidReady(H, nodes, u, children, w, p, t, k, n, |p|);
        WalkUnfold(nodes, key, k, |p|, children[n]);
        WalkIsLookup(H, nodes, u, children[n].version, p + [n], t.kids[n], k);
      } else {
        AbsentKid(H, nodes, u, children, w, p, t, k, |p|);
        WalkStops(nodes, key, k, |p|);
      }
    }
  }

  lemma WalkAtLeaf(nodes: NodeMap, key: NodeKey, t: Tree, k: Key, d: nat)
    requires t.Leaf? && key in nodes && nodes[key].LeafData? && d <= MAX_DEPTH
    requires nodes[key].key == t.key && nodes[key].valueHash == t.vh
    ensures Walk(nodes, key, k, d) == Lookup(t, k, d)
  {
  }

  lemma WalkStops(nodes: NodeMap, key: NodeKey, k: Key, d: nat)
    requires key in nodes && nodes[key].InternalData? && d < MAX_DEPTH && ToPath(k)[d] !in nodes[key].children
    ensures Walk(nodes, key, k, d) == None
  {
  }

  /** Nodes off the path keep their place and their contents. */
  ghost predicate KeptOff(a: NodeMap, b: NodeMap, path: set<NodeKey>) {
    forall key | key in a && key !in path :: key in b && b[key] == a[key]
  }

  /**
   Since `before`, exactly the nodes on the path of `k` have been written; every other write is as
   it was, and all is regular.
   */
  ghost predicate PathWritten(H: Hasher, before: NodeMap, writes: NodeMap, shadow: map<NodeKey, Tree>, v: Version,
                              strings: set<Bytes>, k: Key, d: nat)
    requires d <= MAX_DEPTH
  {
    writes.Keys == shadow.Keys && Regular(H, writes, shadow, v, strings) &&
    writes.Keys == before.Keys + PathKeys(v, ToPath(k), d) && KeptOff(before, writes, PathKeys(v, ToPath(k), d))
  }

  lemma PathExtended(H: Hasher, before: NodeMap, writes: NodeMap, shadow: map<NodeKey, Tree>, v: Version,
                     strings: set<Bytes>, k: Key, d: nat, x: NodeData, s: Tree)
    requires d < MAX_DEPTH && PathWritten(H, before, writes, shadow, v, strings, k, d + 1)
    requires RegularNode(H, NodeKey(v, ToPath(k)[..d]), x, s, v, strings)
    ensures var key := NodeKey(v, ToPath(k)[..d]);
            PathWritten(H, before, writes[key := x], shadow[key := s], v, strings, k, d)
  {
    hide ToPath, PathKeys, Regular, RegularNode;
    PathKeysUnfold(v, ToPath(k), d);
    RegularWrite(H, writes, shadow, v, strings, NodeKey(v, ToPath(k)[..d]), x, s);
  }

  /** The three writes of a split complete the new branch. */
  lemma SplitStep(H: Hasher, a: NodeMap, v: Version, p: Path, m: Nibble, n: Nibble, x: NodeData, y: NodeData)
    requires 0 < v && m != n && x.LeafData? && y.LeafData? && x.key != ZERO_KEY && y.key != ZERO_KEY
    requires p + [m] <= ToPath(x.key) && p + [n] <= ToPath(y.key)
    ensures var tx, ty := Leaf(x.key, x.valueHash), Leaf(y.key, y.valueHash);
            var t := Branch(map[m := tx][n := ty]);
            var b := a[NodeKey(v, p + [m]) := x][NodeKey(v, p + [n]) := y];
            var data := InternalData(map[m := ChildInfo(H, x, v)][n := ChildInfo(H, y, v)], v);
            && Shadows(H, NodeKey(v, p + [m]), x, tx, v) && Shadows(H, NodeKey(v, p + [n]), y, ty, v)
            && Shadows(H, NodeKey(v, p), data, t, v)
            && Rep(H, b[NodeKey(v, p) := data], v, v, p, t)
            && SameOutside(a, b[NodeKey(v, p) := data], v, p)
  {
    hide *;
    var tx, ty := Leaf(x.key, x.valueHash), Leaf(y.key, y.valueHash);
    var b := a[NodeKey(v, p + [m]) := x][NodeKey(v, p + [n]) := y];
    var kids := map[m := tx][n := ty];
    var children := map[m := ChildInfo(H, x, v)][n := ChildInfo(H, y, v)];
    TwoLeaves(H, a, v, p, m, n, x, y);
    LeafShadows(H, NodeKey(v, p + [m]), x);
    LeafShadows(H, NodeKey(v, p + [n]), y);
    assert |p| <= |ToPath(x.key)| == MAX_DEPTH;
    TwoWritesOutside(a, v, p, m, n, x, y);
    SameOutsideWrite(a, b, v, p, p, InternalData(children, v));
    ParentWritten(H, b, children, v, p, kids);
    ParentShadows(H, b, children, v, p, kids);
  }

  lemma LeafShadows(H: Hasher, key: NodeKey, d: NodeData)
    requires d.LeafData? && d.key != ZERO_KEY && key.path <= ToPath(d.key)
    ensures Shadows(H, key, d, Leaf(d.key, d.valueHash), key.version)
  {
  }

  lemma TwoWritesOutside(a: NodeMap, v: Version, p: Path, m: Nibble, n: Nibble, x: NodeData, y: NodeData)
    ensures SameOutside(a, a[NodeKey(v, p + [m]) := x][NodeKey(v, p + [n]) := y], v, p)
  {
  }

  lemma TwoLeaves(H: Hasher, a: NodeMap, v: Version, p: Path, m: Nibble, n: Nibble, x: NodeData, y: NodeData)
    requires 0 < v && m != n && x.LeafData? && y.LeafData?
    ensures var tx, ty := Leaf(x.key, x.valueHash), Leaf(y.key, y.valueHash);
            var b := a[NodeKey(v, p + [m]) := x][NodeKey(v, p + [n]) := y];
            Kids(H, b, v, map[m := ChildInfo(H, x, v)][n := ChildInfo(H, y, v)], v, p, map[m := tx][n := ty])
  {
    var tx, ty := Leaf(x.key, x.valueHash), Leaf(y.key, y.valueHash);
    var b := a[NodeKey(v, p + [m]) := x][NodeKey(v, p + [n]) := y];
    assert (p + [m])[|p|] != (p + [n])[|p|];
    assert Rep(H, b, v, v, p + [m], tx) && Rep(H, b, v, v, p + [n], ty);
    hide Rep;
    InfoRefers(H, b, v, p + [m], tx);
    InfoRefers(H, b, v, p + [n], ty);
  }

  lemma LandingCases(t: Option<Tree>, k: Key, d: nat)
    requires d <= MAX_DEPTH
    requires t.Some? ==> Placed(t.value, ToPath(k)[..d])
    ensures t.Some? && t.value.Branch? ==> d < MAX_DEPTH
    ensures t.Some? && t.value.Leaf? && t.value.key != k ==>
      d < MAX_DEPTH && !Deep(t.value, d) && ToPath(t.value.key)[..d] == ToPath(k)[..d]
    ensures t.Some? ==> Deep(t.value, d) ==> Lands(t, k, d)
  {
    if t.Some? {
      if t.value.Leaf? && d == MAX_DEPTH {
        assert ToPath(t.value.key) == ToPath(k);
        ToPathInjective(t.value.key, k);
      }
      if Deep(t.value, d) { InsertIsDeep(t, k, ZERO, ToPath(k)[..d]); }
    }
  }

  lemma NoKids(H: Hasher, nodes: NodeMap, u: Version, w: Version, p: Path)
    ensures Kids(H, nodes, u, map[], w, p, map[])
  {
  }

  lemma ViewOk(H: Hasher, nodes: NodeMap, writes: NodeMap, shadow: map<NodeKey, Tree>, v: Version)
    requires v > 0 && StoredOk(nodes, v) && WritesShadowed(H, writes, shadow, v)
    ensures NO_KEY !in nodes + writes
    ensures forall key :: key in nodes + writes && (nodes + writes)[key].LeafData? ==>
        (nodes + writes)[key].key != ZERO_KEY
  {
    hide Placed, DataPreimage, Preimage;
  }

  // ----- Steps of a deletion -----

  ghost predicate KidsPlaced(kids: map<Nibble, Tree>, p: Path) {
    forall n | n in kids :: Placed(kids[n], p + [n])
  }

  lemma LeafDeleted(t: Tree, k: Key, d: nat)
    requires t.Leaf? && t.key == k
    ensures Remove(t, k, d) == None && !HasTwin(t, k, d)
  {
  }

  lemma BranchIsHigh(t: Tree, p: Path)
    requires Placed(t, p) && t.Branch?
    ensures |p| < MAX_DEPTH
  {
  }

  lemma KidReady(H: Hasher, nodes: NodeMap, u: Version, children: map<Nibble, Child>, v: Version, p: Path, t: Tree,
                 k: Key, n: Nibble, d: nat)
    requires t.Branch? && Kids(H, nodes, u, children, v, p, t.kids) && Placed(t, p) && n in children
    requires d < MAX_DEPTH && n == ToPath(k)[d]
    ensures Lookup(t, k, d) == LookupOpt(Kid(Some(t), n), k, d + 1)
    ensures n in t.kids && Placed(t.kids[n], p + [n]) && children[n].version <= v
    ensures Rep(H, nodes, u, children[n].version, p + [n], t.kids[n])
  {
  }

  lemma AbsentKid(H: Hasher, nodes: NodeMap, u: Version, children: map<Nibble, Child>, v: Version, p: Path, t: Tree,
                  k: Key, d: nat)
    requires t.Branch? && Kids(H, nodes, u, children, v, p, t.kids)
    requires d < MAX_DEPTH && ToPath(k)[d] !in children
    ensures Lookup(t, k, d) == None
  {
  }

  lemma DeleteUnfold(t: Tree, k: Key, d: nat)
    requires t.Branch? && Lookup(t, k, d).Some?
    ensures Remove(t, k, d) == Collapse(Replace(t.kids, ToPath(k)[d], Remove(t.kids[ToPath(k)[d]], k, d + 1)))
  {
  }

  lemma PlacedKids(t: Tree, p: Path)
    requires t.Branch?
    ensures Placed(t, p) <==> |p| < MAX_DEPTH && t.kids != map[] && KidsPlaced(t.kids, p)
  {
  }

  lemma ReplacePlaced(kids: map<Nibble, Tree>, n: Nibble, kid: Option<Tree>, p: Path)
    requires KidsPlaced(kids, p) && (kid.Some? ==> Placed(kid.value, p + [n]))
    ensures KidsPlaced(Replace(kids, n, kid), p)
  {
    hide Placed;
  }

  lemma LookupKid(t: Tree, k: Key, d: nat)
    requires t.Branch? && Lookup(t, k, d).Some?
    ensures d < MAX_DEPTH && ToPath(k)[d] in t.kids
  {
  }

  lemma DeletedKidPlaced(kids: map<Nibble, Tree>, k: Key, p: Path, n: Nibble)
    requires KidsPlaced(kids, p) && n in kids
    ensures KidsPlaced(Replace(kids, n, Remove(kids[n], k, |p + [n]|)), p)
  {
    hide Remove, ToPath, Placed, Lookup, LookupOpt, Replace;
    DeleteLookup(kids[n], k, p + [n], k);
    ReplacePlaced(kids, n, Remove(kids[n], k, |p + [n]|), p);
  }

  lemma DeletedKidsPlaced(t: Tree, k: Key, p: Path)
    requires t.Branch? && Placed(t, p) && Lookup(t, k, |p|).Some?
    ensures |p| < MAX_DEPTH && ToPath(k)[|p|] in t.kids
    ensures KidsPlaced(Replace(t.kids, ToPath(k)[|p|], Remove(t.kids[ToPath(k)[|p|]], k, |p| + 1)), p)
  {
    hide *;
    LookupKid(t, k, |p|);
    PlacedKids(t, p);
    DeletedKidPlaced(t.kids, k, p, ToPath(k)[|p|]);
  }

  /** After a deletion below position `n` the parent's children are right, with or without it. */
  lemma ReplacedKids(H: Hasher, a: NodeMap, b: NodeMap, children: map<Nibble, Child>, v: Version, w: Version, p: Path,
                     kids: map<Nibble, Tree>, n: Nibble, kid: Option<Tree>)
    requires Kids(H, a, v, children, w, p, kids) && w <= v
    requires SameOutside(a, b, v, p + [n])
    requires kid.Some? ==> NodeKey(v, p + [n]) in b && Rep(H, b, v, v, p + [n], kid.value)
    ensures kid.None? ==> Kids(H, b, v, children - {n}, v, p, Replace(kids, n, kid))
    ensures kid.Some? ==>
        Kids(H, b, v, children[n := ChildInfo(H, b[NodeKey(v, p + [n])], v)], v, p, Replace(kids, n, kid))
  {
    hide Rep, Kids, SameOutside, RefersTo;
    if kid.None? {
      KidsRemoved(H, a, b, children, v, w, p, kids, n);
    } else {
      InfoRefers(H, b, v, p + [n], kid.value);
      KidsRebuilt(H, a, b, children, v, w, p, kids, n, ChildInfo(H, b[NodeKey(v, p + [n])], v), kid.value);
    }
  }

  lemma SameOutsideTwice(a: NodeMap, b: NodeMap, c: NodeMap, v: Version, p: Path, q: Path)
    requires SameOutside(a, b, v, q) && SameOutside(b, c, v, p) && p <= q
    ensures SameOutside(a, c, v, p)
  {
  }

  lemma SameOutsideSelf(a: NodeMap, v: Version, p: Path, d: NodeData)
    ensures SameOutside(a, a[NodeKey(v, p) := d], v, p)
  {
  }

  lemma SameOutsideRefl(a: NodeMap, v: Version, p: Path)
    ensures SameOutside(a, a, v, p)
  {
  }

  lemma CollapseCases(H: Hasher, nodes: NodeMap, children: map<Nibble, Child>, v: Version, p: Path,
                      kids: map<Nibble, Tree>)
    requires Kids(H, nodes, v, children, v, p, kids) && |p| < MAX_DEPTH && KidsPlaced(kids, p)
    ensures |children| == 0 ==> Collapse(kids) == None
    ensures |children| == 1 ==>
        forall n | n in children :: n in kids &&
          Collapse(kids) == if children[n].isLeaf then Some(kids[n]) else Some(Branch(kids))
    ensures |children| > 1 ==> Collapse(kids) == Some(Branch(kids))
    ensures |children| > 0 ==> Placed(Branch(kids), p)
  {
    hide Rep, Collapse, Placed, KidsPlaced, TreeHash;
    assert |children| == |children.Keys| == |kids.Keys| == |kids|;
    CollapseBySize(kids);
    PlacedKids(Branch(kids), p);
    if |children| == 1 {
      forall n | n in children
        ensures n in kids && Collapse(kids) == if children[n].isLeaf then Some(kids[n]) else Some(Branch(kids))
      {
        assert RefersTo(H, children[n], v, kids[n]);
      }
    }
  }

  /** Whatever a node collapses to, its kids' strings are among its own. */
  lemma HashedThroughCollapse(H: Hasher, kids: map<Nibble, Tree>, n: Nibble)
    requires n in kids
    ensures Collapse(kids).Some? && Hashed(H, kids[n]) <= Hashed(H, Collapse(kids).value)
  {
    hide Hashed, Collapse;
    CollapseBySize(kids);
    if |kids| != 1 || kids[n].Branch? { HashedKid(H, Branch(kids), n); }
    assert |kids| > 0;
  }

  lemma CollapseBySize(kids: map<Nibble, Tree>)
    ensures |kids| == 0 ==> Collapse(kids) == None
    ensures |kids| == 1 ==>
        forall n | n in kids :: Collapse(kids) == if kids[n].Leaf? then Some(kids[n]) else Some(Branch(kids))
    ensures |kids| > 1 ==> Collapse(kids) == Some(Branch(kids))
    ensures kids == map[] <==> |kids| == 0
  {
    assert kids == map[] <==> |kids| == 0;
    if |kids| == 1 {
      forall n | n in kids
        ensures Collapse(kids) == if kids[n].Leaf? then Some(kids[n]) else Some(Branch(kids))
      {
        Singleton(kids, n);
      }
    }
  }

  /** The lone leaf is found under its own key. */
  lemma LoneLeaf(H: Hasher, nodes: NodeMap, children: map<Nibble, Child>, v: Version, p: Path,
                 kids: map<Nibble, Tree>, n: Nibble)
    requires Kids(H, nodes, v, children, v, p, kids) && KidsPlaced(kids, p)
    requires n in children && children == map[n := children[n]] && children[n].isLeaf
    ensures kids == map[n := kids[n]] && kids[n].Leaf?
    ensures var key := NodeKey(children[n].version, p + [n]);
            && key in nodes && nodes[key].LeafData?
            && nodes[key].key == kids[n].key && nodes[key].valueHash == kids[n].vh
            && p <= ToPath(nodes[key].key)
  {
    hide ToPath;
    assert n in kids;
    assert p + [n] <= ToPath(kids[n].key);
    assert p <= p + [n];
  }

  lemma DeepCollapse(kids: map<Nibble, Tree>, d: nat)
    requires d < MAX_DEPTH
    ensures Collapse(kids).Some? && Collapse(kids).value.Leaf? ==> !Deep(Collapse(kids).value, d)
  {
    hide Collapse;
  }

  ghost predicate AtMostOneWrite(a: NodeMap, b: NodeMap, key: NodeKey) {
    b == a || (key in b && b == a[key := b[key]])
  }

  lemma DeepDeletion(t: Tree, k: Key, p: Path)
    requires Placed(t, p) && Deep(t, |p|) && Lookup(t, k, |p|).Some? && t.Branch?
    ensures (Remove(t, k, |p|).Some? ==> Deep(Remove(t, k, |p|).value, |p|)) <==> !HasTwin(t, k, |p|)
    ensures Deep(t.kids[ToPath(k)[|p|]], |p| + 1)
    ensures |p| < MAX_DEPTH - 1 ==> (HasTwin(t, k, |p|) <==> HasTwin(t.kids[ToPath(k)[|p|]], k, |p| + 1))
    ensures |p| == MAX_DEPTH - 1 ==> t.kids[ToPath(k)[|p|]].Leaf? && !HasTwin(t.kids[ToPath(k)[|p|]], k, MAX_DEPTH)
  {
    DeleteIsDeep(t, k, p);
  }

  /** Just above the leaves, the twin of a deleted key is lifted. */
  lemma TwinLifts(t: Tree, k: Key, p: Path, d: nat)
    requires t.Branch? && Placed(t, p) && Deep(t, d) && |p| == d == MAX_DEPTH - 1 && HasTwin(t, k, d)
    requires Lookup(t, k, d).Some?
    ensures Remove(t, k, d).Some? && Remove(t, k, d).value.Leaf?
  {
    hide ToPath, Collapse;
    var n := ToPath(k)[d];
    var kids := t.kids - {n};
    assert Remove(t.kids[n], k, MAX_DEPTH) == None;
    assert Remove(t, k, d) == Collapse(kids);
    assert kids.Keys == t.kids.Keys - {n};
    assert |kids| == 1;
    CollapseBySize(kids);
    var m :| m in kids.Keys;
    assert Placed(t.kids[m], p + [m]) && Deep(t.kids[m], d + 1);
  }

  lemma LeafRep(H: Hasher, nodes: NodeMap, v: Version, p: Path)
    requires v > 0 && NodeKey(v, p) in nodes && nodes[NodeKey(v, p)].LeafData?
    ensures Rep(H, nodes, v, v, p, Leaf(nodes[NodeKey(v, p)].key, nodes[NodeKey(v, p)].valueHash))
  {
  }

  lemma DeletedPlaced(t: Tree, k: Key)
    requires Placed(t, [])
    ensures Remove(t, k, 0).Some? ==> Placed(Remove(t, k, 0).value, [])
  {
    hide Placed, Remove;
    DeleteLookup(t, k, [], k);
  }

  lemma DeepDeletedRoot(t: Tree, k: Key)
    requires Placed(t, []) && Deep(t, 0) && Lookup(t, k, 0).Some?
    ensures HasTwin(t, k, 0) ==> Remove(t, k, 0).Some?
  {
    hide Placed, Remove, Deep, Lookup, HasTwin;
    DeleteIsDeep(t, k, []);
  }
}
