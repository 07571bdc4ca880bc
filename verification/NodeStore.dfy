/**
 What a map of stored nodes stands for, and the node cache in front of storage
 (pkg/tree/cache.go, pkg/tree/tree.go).
 */
module NodeStore {
  import opened Types
  import opened Merkle
  import opened Nodes
  import opened KeyCodec
  import opened NodeCodec
  import opened ByteStore

  /**
   The node under `(v, p)` and everything it refers to stands for `t`: each child reference
   resolves, carries the child's hash and kind, and names a version no newer than its parent's.
   Where the tree uses a node of another version than `u`, there is no node of version `u`; with a
   pending version for `u` this says that no write is overlooked, and with 0 it says nothing.
   */
  ghost predicate Rep(H: Hasher, nodes: NodeMap, u: Version, v: Version, p: Path, t: Tree)
    decreases t
  {
    v > 0 && NodeKey(v, p) in nodes && (v == u || NodeKey(u, p) !in nodes) &&
    var d := nodes[NodeKey(v, p)];
    match t
    case Leaf(k, vh) => d.LeafData? && d.key == k && d.valueHash == vh
    case Branch(kids) =>
      d.InternalData? && d.children.Keys == kids.Keys &&
      forall n | n in kids :: RefersTo(H, d.children[n], v, kids[n]) &&
        Rep(H, nodes, u, d.children[n].version, p + [n], kids[n])
  }

  /** A child reference held by a node of version `v` describes `t`. */
  ghost predicate RefersTo(H: Hasher, c: Child, v: Version, t: Tree) {
    c.hash == TreeHash(H, t) && c.isLeaf == t.Leaf? && c.version <= v
  }

  /** The reference a parent keeps to a node that has just been written. */
  function ChildInfo(H: Hasher, d: NodeData, v: Version): (c: Child)
    ensures c.version == v
  {
    Child(DataHash(H, d), v, d.LeafData?)
  }

  /** `key` leads to `t`, or to nothing. */
  ghost predicate RepOpt(H: Hasher, nodes: NodeMap, u: Version, key: NodeKey, t: Option<Tree>) {
    match t
    case None => key !in nodes
    case Some(t) => Rep(H, nodes, u, key.version, key.path, t)
  }

  /** Every node at or below `p` is the same in both maps, and none of version `u` is new. */
  ghost predicate KeptBelow(a: NodeMap, b: NodeMap, u: Version, p: Path) {
    (forall key :: key in a && p <= key.path ==> key in b && a[key] == b[key]) &&
    forall key :: key in b && key.version == u && p <= key.path ==> key in a
  }

  /** A tree depends only on the nodes at or below its position. */
  lemma {:induction false} RepFrame(H: Hasher, a: NodeMap, b: NodeMap, u: Version, v: Version, p: Path, t: Tree)
    requires Rep(H, a, u, v, p, t) && KeptBelow(a, b, u, p)
    ensures Rep(H, b, u, v, p, t)
    decreases t
  {
    assert a[NodeKey(v, p)] == b[NodeKey(v, p)];
    if t.Branch? {
      var d := a[NodeKey(v, p)];
      forall n | n in t.kids
        ensures Rep(H, b, u, d.children[n].version, p + [n], t.kids[n])
      {
        assert KeptBelow(a, b, u, p + [n]);
        RepFrame(H, a, b, u, d.children[n].version, p + [n], t.kids[n]);
      }
    }
  }

  /** Stored hashes are the Merkle hashes of the tree. */
  lemma RepHash(H: Hasher, nodes: NodeMap, u: Version, v: Version, p: Path, t: Tree)
    requires Rep(H, nodes, u, v, p, t)
    ensures DataPreimage(nodes[NodeKey(v, p)]) == Preimage(H, t)
    ensures DataHash(H, nodes[NodeKey(v, p)]) == TreeHash(H, t)
  {
    hide InternalPreimage, LeafPreimage;
    if t.Branch? {
      assert ChildHashes(nodes[NodeKey(v, p)].children) == KidHashes(H, t);
    }
  }

  // ----- Changing nodes in one part of the tree -----

  /** Apart from nodes of version `v` at or below `q`, the two maps are the same. */
  ghost predicate SameOutside(a: NodeMap, b: NodeMap, v: Version, q: Path) {
    forall key: NodeKey :: !(key.version == v && q <= key.path) ==>
      (key in a <==> key in b) && (key in a ==> a[key] == b[key])
  }

  /** A sibling of the changed part keeps its tree. */
  lemma SiblingKept(H: Hasher, a: NodeMap, b: NodeMap, v: Version, p: Path, n: Nibble, i: Nibble, w: Version, t: Tree)
    requires SameOutside(a, b, v, p + [n]) && i != n
    requires Rep(H, a, v, w, p + [i], t)
    ensures Rep(H, b, v, w, p + [i], t)
  {
    forall key: NodeKey | p + [i] <= key.path
      ensures (key in a <==> key in b) && (key in a ==> a[key] == b[key])
    {
      assert key.path[|p|] == (p + [i])[|p|] == i;
      assert (p + [n])[|p|] == n;
    }
    assert KeptBelow(a, b, v, p + [i]);
    RepFrame(H, a, b, v, w, p + [i], t);
  }

  /** The children of a node that stands for a branch with `kids`. */
  ghost predicate Kids(H: Hasher, nodes: NodeMap, u: Version, children: map<Nibble, Child>, v: Version, p: Path,
                       kids: map<Nibble, Tree>) {
    children.Keys == kids.Keys &&
    forall n | n in kids :: RefersTo(H, children[n], v, kids[n]) &&
      Rep(H, nodes, u, children[n].version, p + [n], kids[n])
  }

  /** Stored nodes stand for at most one tree. */
  lemma {:induction false} RepUnique(H: Hasher, nodes: NodeMap, u: Version, u': Version, v: Version, p: Path, s: Tree,
                                     t: Tree)
    requires Rep(H, nodes, u, v, p, s) && Rep(H, nodes, u', v, p, t)
    ensures s == t
    decreases s
  {
    if s.Branch? {
      var children := nodes[NodeKey(v, p)].children;
      forall n | n in s.kids
        ensures s.kids[n] == t.kids[n]
      {
        RepUnique(H, nodes, u, u', children[n].version, p + [n], s.kids[n], t.kids[n]);
      }
      assert s.kids == t.kids;
    }
  }

  lemma RootUnique(H: Hasher, nodes: NodeMap, u: Version, u': Version, key: NodeKey, s: Option<Tree>, t: Option<Tree>)
    requires RepOpt(H, nodes, u, key, s) && RepOpt(H, nodes, u', key, t)
    ensures s == t
  {
    NodeFound(H, nodes, u, key, s);
    NodeFound(H, nodes, u', key, t);
    hide Rep;
    if s.Some? { RepUnique(H, nodes, u, u', key.version, key.path, s.value, t.value); }
  }

  /** A node is there exactly if there is a tree, and it is of the tree's kind. */
  lemma NodeFound(H: Hasher, nodes: NodeMap, u: Version, key: NodeKey, t: Option<Tree>)
    requires RepOpt(H, nodes, u, key, t)
    ensures t.None? <==> key !in nodes
    ensures t.Some? ==> (nodes[key].InternalData? <==> t.value.Branch?)
    ensures t.Some? && t.value.Leaf? ==> nodes[key].key == t.value.key && nodes[key].valueHash == t.value.vh
    ensures t.Some? && t.value.Branch? ==> Kids(H, nodes, u, nodes[key].children, key.version, key.path, t.value.kids)
  {
  }

  /** After the subtree in position `n` has been rebuilt, the parent's new children are right. */
  lemma KidsRebuilt(H: Hasher, a: NodeMap, b: NodeMap, children: map<Nibble, Child>, v: Version, w: Version, p: Path,
                    kids: map<Nibble, Tree>, n: Nibble, c: Child, t: Tree)
    requires Kids(H, a, v, children, w, p, kids) && w <= v
    requires SameOutside(a, b, v, p + [n])
    requires RefersTo(H, c, v, t) && Rep(H, b, v, c.version, p + [n], t)
    ensures Kids(H, b, v, children[n := c], v, p, kids[n := t])
  {
    forall i | i in kids[n := t]
      ensures RefersTo(H, children[n := c][i], v, kids[n := t][i])
      ensures Rep(H, b, v, children[n := c][i].version, p + [i], kids[n := t][i])
    {
      if i != n {
        SiblingKept(H, a, b, v, p, n, i, children[i].version, kids[i]);
      }
    }
  }

  /** After the subtree in position `n` has gone, the other children are still right. */
  lemma KidsRemoved(H: Hasher, a: NodeMap, b: NodeMap, children: map<Nibble, Child>, v: Version, w: Version, p: Path,
                    kids: map<Nibble, Tree>, n: Nibble)
    requires Kids(H, a, v, children, w, p, kids) && w <= v
    requires SameOutside(a, b, v, p + [n])
    ensures Kids(H, b, v, children - {n}, v, p, kids - {n})
  {
    forall i | i in kids - {n}
      ensures RefersTo(H, children[i], v, kids[i])
      ensures Rep(H, b, v, children[i].version, p + [i], kids[i])
    {
      SiblingKept(H, a, b, v, p, n, i, children[i].version, kids[i]);
    }
  }

  /** Writing the parent completes the tree. */
  lemma ParentWritten(H: Hasher, nodes: NodeMap, children: map<Nibble, Child>, v: Version, p: Path,
                      kids: map<Nibble, Tree>)
    requires v > 0 && Kids(H, nodes, v, children, v, p, kids)
    ensures Rep(H, nodes[NodeKey(v, p) := InternalData(children, v)], v, v, p, Branch(kids))
  {
    hide Rep, RefersTo, KeptBelow;
    var b := nodes[NodeKey(v, p) := InternalData(children, v)];
    forall n | n in kids
      ensures Rep(H, b, v, children[n].version, p + [n], kids[n])
    {
      WriteAbove(nodes, v, p, n, InternalData(children, v));
      RepFrame(H, nodes, b, v, children[n].version, p + [n], kids[n]);
    }
    KidsMakeBranch(H, b, children, v, p, kids);
  }

  /** A write at `p` leaves everything below `p` as it was. */
  lemma WriteAbove(nodes: NodeMap, v: Version, p: Path, n: Nibble, d: NodeData)
    ensures KeptBelow(nodes, nodes[NodeKey(v, p) := d], v, p + [n])
  {
    assert !(p + [n] <= p);
  }

  lemma KidsMakeBranch(H: Hasher, nodes: NodeMap, children: map<Nibble, Child>, v: Version, p: Path,
                       kids: map<Nibble, Tree>)
    requires v > 0 && Kids(H, nodes, v, children, v, p, kids)
    requires NodeKey(v, p) in nodes && nodes[NodeKey(v, p)] == InternalData(children, v)
    ensures Rep(H, nodes, v, v, p, Branch(kids))
  {
  }

  lemma InfoRefers(H: Hasher, nodes: NodeMap, v: Version, p: Path, t: Tree)
    requires Rep(H, nodes, v, v, p, t)
    ensures RefersTo(H, ChildInfo(H, nodes[NodeKey(v, p)], v), v, t)
  {
    RepHash(H, nodes, v, v, p, t);
  }

  lemma SameOutsideWrite(a: NodeMap, b: NodeMap, v: Version, p: Path, q: Path, d: NodeData)
    requires SameOutside(a, b, v, q) && p <= q
    ensures SameOutside(a, b[NodeKey(v, p) := d], v, p)
  {
  }

  lemma SameOutsideWider(a: NodeMap, b: NodeMap, v: Version, p: Path, q: Path)
    requires SameOutside(a, b, v, q) && p <= q
    ensures SameOutside(a, b, v, p)
  {
  }

  // ----- Walking down -----

  /** What following the nibbles of `k` finds, from the node under `key` at depth `d` on. */
  ghost function Walk(nodes: NodeMap, key: NodeKey, k: Key, d: nat): Option<Hash>
    decreases MAX_DEPTH + 1 - d
  {
    if d > MAX_DEPTH || key !in nodes then None
    else
      match nodes[key]
      case LeafData(k', vh, _, _) => if k' == k then Some(vh) else None
      case InternalData(children, _) =>
        if d < MAX_DEPTH && ToPath(k)[d] in children
        then Walk(nodes, key.Child(ToPath(k)[d], children[ToPath(k)[d]].version), k, d + 1) else None
  }

  lemma WalkUnfold(nodes: NodeMap, key: NodeKey, k: Key, d: nat, c: Child)
    requires d < MAX_DEPTH && key in nodes && nodes[key].InternalData?
    requires ToPath(k)[d] in nodes[key].children && nodes[key].children[ToPath(k)[d]] == c
    ensures Walk(nodes, key, k, d) == Walk(nodes, NodeKey(c.version, key.path + [ToPath(k)[d]]), k, d + 1)
  {
  }

  /** A walk depends only on the nodes at or below its start. */
  lemma {:induction false} WalkFrame(a: NodeMap, b: NodeMap, key: NodeKey, k: Key, d: nat)
    requires forall x: NodeKey | key.path <= x.path :: (x in a <==> x in b) && (x in a ==> a[x] == b[x])
    ensures Walk(b, key, k, d) == Walk(a, key, k, d)
    decreases MAX_DEPTH + 1 - d
  {
    if d < MAX_DEPTH && key in a && a[key].InternalData? && ToPath(k)[d] in a[key].children {
      hide ToPath;
      WalkFrame(a, b, key.Child(ToPath(k)[d], a[key].children[ToPath(k)[d]].version), k, d + 1);
    }
  }

  // ----- Cache -----

  /** The value of a leaf is at hand: carried by the leaf, as it was put, or stored under its hash. */
  ghost predicate Valued(H: Hasher, d: NodeData, values: map<Hash, Bytes>, puts: set<Bytes>) {
    d.LeafData? ==>
      if d.value.Some? then H(d.value.value) == d.valueHash && d.value.value in puts else d.valueHash in values
  }

  ghost predicate AllValued(H: Hasher, nodes: NodeMap, values: map<Hash, Bytes>, puts: set<Bytes>) {
    forall key :: key in nodes ==> Valued(H, nodes[key], values, puts)
  }

  /** Every stored node is as a commit writes it. */
  ghost predicate AllStored(nodes: NodeMap, values: map<Hash, Bytes>) {
    forall key :: key in nodes ==> StoredNode(key, nodes[key], values)
  }

  /**
   The byte store, with a cache of decoded nodes in front of it.  `nodes`, `values` and `roots` are
   what the bytes stand for.
   */
  class NodeSource {
    var store: ByteMap
    var entries: NodeMap
    var hits: nat
    var misses: nat
    ghost var nodes: NodeMap
    ghost var values: map<Hash, Bytes>
    ghost var roots: map<Version, Hash>

    /** The bytes encode the nodes, values and roots, and a cached node is the stored node. */
    ghost predicate Sound()
      reads `store, `nodes, `values, `roots, `entries
    {
      Encodes(store, nodes, values, roots) && AllStored(nodes, values) && Cached(entries, nodes)
    }

    /** A source over a byte store, with an empty cache. */
    constructor (store: ByteMap, ghost nodes: NodeMap, ghost values: map<Hash, Bytes>, ghost roots: map<Version, Hash>)
      requires Encodes(store, nodes, values, roots) && AllStored(nodes, values)
      ensures this.store == store && this.nodes == nodes && this.values == values && this.roots == roots
      ensures Sound() && entries == map[]
    {
      hide Encodes, AllStored;
      this.store, entries, hits, misses := store, map[], 0, 0;
      this.nodes, this.values, this.roots := nodes, values, roots;
    }

    /** A hit counts as a hit, a miss as a miss. */
    method CacheGet(key: NodeKey) returns (r: Option<NodeData>)
      modifies `hits, `misses
      ensures r == if key in entries then Some(entries[key]) else None
      ensures hits == old(hits) + (if r.Some? then 1 else 0) && misses == old(misses) + if r.Some? then 0 else 1
    {
      if key in entries {
        hits := hits + 1;
        return Some(entries[key]);
      }
      misses := misses + 1;
      return None;
    }

    /** Adding an entry may evict any others. */
    method CachePut(key: NodeKey, node: NodeData)
      requires Sound() && key in nodes && nodes[key] == node
      modifies `entries
      ensures Sound() && key in entries
      ensures entries.Keys <= old(entries.Keys) + {key}
    {
      hide Encodes, AllStored;
      var evicted: set<NodeKey> := *;
      entries := (entries - evicted)[key := node];
    }

    /** From the cache or from the bytes, loading gives the stored node. */
    method Load(key: NodeKey) returns (r: Option<NodeData>)
      requires Sound() && |key.path| <= MAX_DEPTH
      modifies `entries, `hits, `misses
      ensures Sound()
      ensures r == if key in nodes then Some(nodes[key]) else None
    {
      hide Encodes, StoredNode;
      r := CacheGet(key);
      if r.Some? { return; }
      r := LoadNode(store, key, nodes, values, roots);
      if r.Some? { CachePut(key, r.value); }
    }

    /** Write a storage batch: the new bytes encode what is stored now, and nothing cached is overwritten. */
    method WriteBatch(store: ByteMap, ghost nodes: NodeMap, ghost values: map<Hash, Bytes>,
                      ghost roots: map<Version, Hash>)
      requires Encodes(store, nodes, values, roots) && AllStored(nodes, values) && Cached(entries, nodes)
      modifies `store, `nodes, `values, `roots
      ensures this.store == store && this.nodes == nodes && this.values == values && this.roots == roots && Sound()
    {
      hide Encodes, AllStored, Cached;
      this.store, this.nodes, this.values, this.roots := store, nodes, values, roots;
    }

    lemma CachedIsDecoded()
      requires Sound()
      ensures Decoded(store, entries)
    {
      hide Encodes, NodeStorageKey, DecodedNode;
      forall key | key in entries
        ensures NodeStorageKey(key) in store
        ensures DecodedNode(store[NodeStorageKey(key)], key.version) == Some(entries[key])
      {
        NodeBytes(store, nodes, values, roots, key);
      }
    }
  }

  /** What is cached under a key is what the bytes under that key decode to. */
  ghost predicate Decoded(store: ByteMap, entries: NodeMap) {
    forall key | key in entries ::
      NodeStorageKey(key) in store && DecodedNode(store[NodeStorageKey(key)], key.version) == Some(entries[key])
  }

  ghost predicate Cached(entries: NodeMap, nodes: NodeMap) {
    forall key :: key in entries ==> key in nodes && entries[key] == nodes[key]
  }
}
