/**
 Reading a version of the tree (pkg/tree/reader.go).
 */
module Reader {
  import opened Types
  import opened Merkle
  import opened TreeMap
  import opened Nodes
  import opened NodeStore
  import opened ByteStore
  import opened Contents

  datatype ReadResult = Found(value: Bytes) | Absent | Failed

  /** Values are stored under their own hash. */
  ghost predicate ValuesHashed(H: Hasher, values: map<Hash, Bytes>) {
    forall h :: h in values ==> H(values[h]) == h
  }

  /** The nodes of version `v` stand for `t`, and every leaf's value is stored. */
  ghost predicate Readable(H: Hasher, source: NodeSource, v: Version, t: Option<Tree>)
    reads source`store, source`nodes, source`values, source`roots, source`entries
  {
    source.Sound() && RepOpt(H, source.nodes, 0, RootNodeKey(v), t) && PlacedOpt(t) &&
    ValuesHashed(H, source.values) &&
    forall key :: key in source.nodes && source.nodes[key].LeafData? ==> source.nodes[key].valueHash in source.values
  }

  /** Load a value and check its hash; a missing value reads as the empty string. */
  method LoadValue(H: Hasher, source: NodeSource, h: Hash) returns (r: ReadResult)
    requires source.Sound()
    ensures var data := if h in source.values then source.values[h] else [];
            r == if H(data) == h then Found(data) else Failed
  {
    hide Encodes, AllStored, Cached;
    var stored := LoadBytes(source.store, h, source.nodes, source.values, source.roots);
    var data := if stored.Some? then stored.value else [];
    if H(data) != h { return Failed; }
    return Found(data);
  }

  /** Follow the nibbles of `key` from the root of version `v`. */
  method ReaderGet(H: Hasher, source: NodeSource, v: Version, key: Key, ghost t: Option<Tree>) returns (r: ReadResult)
    requires Readable(H, source, v, t)
    modifies source`entries, source`hits, source`misses
    ensures Readable(H, source, v, t)
    ensures match LookupOpt(t, key, 0)
            case None => r == Absent
            case Some(h) => h in source.values && r == Found(source.values[h])
  {
    hide Rep, Placed, ToPath, NodeSource.Sound;
    var root := source.Load(RootNodeKey(v));
    NodeFound(H, source.nodes, 0, NodeKey(v, []), t);
    if root.None? { return Absent; }
    var path := ToPath(key);
    var current := root.value;
    ghost var s: Tree, w: Version := t.value, v;
    var depth := 0;
    while depth < MAX_DEPTH && current.InternalData?
      invariant depth <= MAX_DEPTH && w <= v
      invariant source.Sound()
      invariant Rep(H, source.nodes, 0, w, path[..depth], s) && Placed(s, path[..depth])
      invariant NodeKey(w, path[..depth]) in source.nodes && source.nodes[NodeKey(w, path[..depth])] == current
      invariant Lookup(s, key, depth) == Lookup(t.value, key, 0)
    {
      var nibble := path[depth];
      Descend(H, source.nodes, w, path[..depth], s, key, depth);
      if nibble !in current.children { return Absent; }
      var child := current.children[nibble];
      if child.version > v { return Absent; }
      assert path[..depth + 1] == path[..depth] + [nibble];
      var next := source.Load(NodeKey(child.version, path[..depth + 1]));
      if next.None? { return Absent; }
      current, s, w := next.value, s.kids[nibble], child.version;
      depth := depth + 1;
    }
    AtLeaf(H, source.nodes, w, path[..depth], s, key, depth);
    if current.InternalData? { return Failed; }
    if current.key == key {
      r := LoadValue(H, source, current.valueHash);
    } else {
      return Absent;
    }
  }

  /** One step down a stored tree. */
  lemma Descend(H: Hasher, nodes: NodeMap, w: Version, p: Path, s: Tree, k: Key, d: nat)
    requires Rep(H, nodes, 0, w, p, s) && Placed(s, p) && nodes[NodeKey(w, p)].InternalData?
    requires d < MAX_DEPTH && |p| == d
    ensures var children, n := nodes[NodeKey(w, p)].children, ToPath(k)[d];
            && s.Branch? && (n in children <==> n in s.kids)
            && (n !in children ==> Lookup(s, k, d) == None)
            && (n in children ==> && Rep(H, nodes, 0, children[n].version, p + [n], s.kids[n])
                                  && Placed(s.kids[n], p + [n])
                                  && NodeKey(children[n].version, p + [n]) in nodes
                                  && children[n].version <= w && Lookup(s.kids[n], k, d + 1) == Lookup(s, k, d))
  {
  }

  lemma AtLeaf(H: Hasher, nodes: NodeMap, w: Version, p: Path, s: Tree, k: Key, d: nat)
    requires Rep(H, nodes, 0, w, p, s) && Placed(s, p) && |p| == d
    ensures var node := nodes[NodeKey(w, p)];
            && (node.InternalData? ==> d < MAX_DEPTH)
            && (node.LeafData? ==> Lookup(s, k, d) == if node.key == k then Some(node.valueHash) else None)
  {
  }
}
