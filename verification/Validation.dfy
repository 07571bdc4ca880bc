/**
 Batch validation before a commit (pkg/tree/tree_updater.go).
 */
module Validation {
  import opened Types
  import opened Merkle
  import opened TreeMap
  import opened Nodes
  import opened NodeStore
  import opened UpdateSteps

  /** The checks on a single node: no child from the future, no leaf for the zero key. */
  ghost predicate NodeAccepted(d: NodeData, v: Version) {
    match d
    case LeafData(k, _, _, _) => k != ZERO_KEY
    case InternalData(children, _) =>
      forall n | n in children :: children[n].hash == ZERO || children[n].version <= v
  }

  /** What validation accepts: distinct hashes, sound nodes of the new version, no stale key from the future. */
  ghost predicate Acceptable(H: Hasher, nodes: NodeMap, stale: seq<NodeKey>, v: Version) {
    DistinctHashes(H, nodes) &&
    (forall key | key in nodes :: NodeAccepted(nodes[key], v) && nodes[key].version == v) &&
    forall key | key in stale :: key.version <= v
  }

  ghost predicate DistinctHashes(H: Hasher, nodes: NodeMap) {
    forall a, b | a in nodes && b in nodes && a != b :: DataHash(H, nodes[a]) != DataHash(H, nodes[b])
  }

  /** Visits the nodes in any order, remembering hashes; the verdict does not depend on the order. */
  method ValidateBatch(H: Hasher, nodes: NodeMap, stale: seq<NodeKey>, v: Version) returns (ok: bool)
    ensures ok <==> Acceptable(H, nodes, stale, v)
    ensures ok ==> forall key, n | key in nodes && nodes[key].InternalData? && n in nodes[key].children ::
                     nodes[key].children[n].hash == ZERO || nodes[key].children[n].version <= v
    ensures ok ==> forall key | key in nodes && nodes[key].LeafData? :: nodes[key].key != ZERO_KEY
  {
    ok := ValidateNodes(H, nodes, v);
    if !ok { return; }
    for i := 0 to |stale|
      invariant forall j | 0 <= j < i :: stale[j].version <= v
    {
      if stale[i].version > v { return false; }
    }
  }

  method ValidateNodes(H: Hasher, nodes: NodeMap, v: Version) returns (ok: bool)
    ensures ok <==>
        DistinctHashes(H, nodes) && forall key | key in nodes :: NodeAccepted(nodes[key], v) && nodes[key].version == v
  {
    hide DataHash, NodeAccepted;
    var todo := nodes.Keys;
    var visited: set<Hash> := {};
    while todo != {}
      invariant todo <= nodes.Keys
      invariant forall key | key in nodes.Keys - todo :: DataHash(H, nodes[key]) in visited
      invariant forall key | key in nodes.Keys - todo :: NodeAccepted(nodes[key], v) && nodes[key].version == v
      invariant forall h | h in visited :: exists key :: key in nodes.Keys - todo && DataHash(H, nodes[key]) == h
      invariant forall a, b | a in nodes.Keys - todo && b in nodes.Keys - todo && a != b ::
          DataHash(H, nodes[a]) != DataHash(H, nodes[b])
    {
      var key :| key in todo;
      var h := DataHash(H, nodes[key]);
      if h in visited { return false; }
      visited := visited + {h};
      ok := CheckNode(nodes[key], v);
      if !ok || nodes[key].version != v { return false; }
      todo := todo - {key};
    }
    return true;
  }

  method CheckNode(d: NodeData, v: Version) returns (ok: bool)
    ensures ok == NodeAccepted(d, v)
  {
    match d
    case LeafData(k, _, _, _) =>
      return k != ZERO_KEY;
    case InternalData(children, _) =>
      var todo := children.Keys;
      while todo != {}
        invariant todo <= children.Keys
        invariant forall n | n in children.Keys - todo :: children[n].hash == ZERO || children[n].version <= v
      {
        var n :| n in todo;
        if children[n].hash != ZERO && children[n].version > v { return false; }
        todo := todo - {n};
      }
      return true;
  }

  // ----- Honest batches -----

  /** A tree has one place: its position can be read off the tree. */
  lemma {:induction false} OneDepth(t: Tree, p: Path, d: nat)
    requires Placed(t, p) && Deep(t, |p|) && Deep(t, d)
    ensures |p| == d
    decreases t
  {
    if t.Branch? {
      var n :| n in t.kids;
      OneDepth(t.kids[n], p + [n], d + 1);
    }
  }

  lemma OnePlace(t: Tree, p: Path, q: Path)
    requires Placed(t, p) && Placed(t, q) && Deep(t, |p|) && Deep(t, |q|)
    ensures p == q
  {
    hide *;
    OneDepth(t, p, |q|);
    var k, vh := SomeKey(t, p);
    LookupFindsAll(t, q, k, vh);
    assert p == ToPath(k)[..|p|] && q == ToPath(k)[..|q|];
  }

  /** Two regular writes, live or orphaned, have different hashes. */
  lemma RegularDistinct(H: Hasher, writes: NodeMap, shadow: map<NodeKey, Tree>, v: Version, strings: set<Bytes>,
                        a: NodeKey, b: NodeKey)
    requires WritesShadowed(H, writes, shadow, v) && Regular(H, writes, shadow, v, strings)
    requires CollisionFree(H, strings)
    requires a in writes && b in writes && DataHash(H, writes[a]) == DataHash(H, writes[b])
    ensures a == b
  {
    var s, t := shadow[a], shadow[b];
    assert TreeHash(H, s) == TreeHash(H, t) && a.version == b.version;
    assert RegularNode(H, a, writes[a], s, v, strings) && RegularNode(H, b, writes[b], t, v, strings);
    assert Placed(s, a.path) && Placed(t, b.path) && Deep(s, |a.path|) && Deep(t, |b.path|);
    assert Hashed(H, s) + Hashed(H, t) <= strings;
    hide *;
    SubsetFree(H, Hashed(H, s) + Hashed(H, t), strings);
    TreeHashInjective(H, s, t);
    OnePlace(s, a.path, b.path);
  }

  lemma SubsetFree(H: Hasher, s: set<Bytes>, t: set<Bytes>)
    requires s <= t && CollisionFree(H, t)
    ensures CollisionFree(H, s)
  {
  }

  /** Validation never refuses a regular batch, unless two of the strings hashed for it collide. */
  lemma RegularAccepted(H: Hasher, writes: NodeMap, shadow: map<NodeKey, Tree>, stale: seq<NodeKey>, v: Version,
                        strings: set<Bytes>)
    requires WritesShadowed(H, writes, shadow, v) && Regular(H, writes, shadow, v, strings)
    requires CollisionFree(H, strings)
    requires forall key | key in stale :: key.version <= v
    ensures Acceptable(H, writes, stale, v)
  {
    assert DistinctHashes(H, writes) by {
      hide WritesShadowed, Regular, CollisionFree, DataHash;
      forall a, b | a in writes && b in writes && DataHash(H, writes[a]) == DataHash(H, writes[b])
        ensures a == b
      {
        RegularDistinct(H, writes, shadow, v, strings, a, b);
      }
    }
    hide DistinctHashes, CollisionFree;
    forall key | key in writes
      ensures NodeAccepted(writes[key], v) && writes[key].version == v
    {
      assert Shadows(H, key, writes[key], shadow[key], v);
      assert RegularNode(H, key, writes[key], shadow[key], v, strings);
    }
  }
}
