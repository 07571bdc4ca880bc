/**
 Stored nodes, and the node objects with their cached hash
 (pkg/types/node.go, pkg/tree/internal_node.go, pkg/tree/leaf_node.go).
 */
module Nodes {
  import opened Types
  import opened Merkle

  /** A reference to a child node. */
  datatype Child = Child(hash: Hash, version: Version, isLeaf: bool)

  /** The contents of a node.  A leaf read back from storage carries no value. */
  datatype NodeData =
    | LeafData(key: Key, valueHash: Hash, value: Option<Bytes>, version: Version)
    | InternalData(children: map<Nibble, Child>, version: Version)

  type NodeMap = map<NodeKey, NodeData>

  function ChildHashes(children: map<Nibble, Child>): map<Byte, Hash> {
    map n | n in children :: children[n].hash
  }

  function DataPreimage(d: NodeData): Bytes {
    match d
    case LeafData(k, vh, _, _) => LeafPreimage(k, vh)
    case InternalData(children, _) => InternalPreimage(ChildHashes(children))
  }

  function DataHash(H: Hasher, d: NodeData): Digest {
    H(DataPreimage(d))
  }

  /** An internal node under construction: children and cached hash change in place. */
  class InternalNode {
    const H: Hasher
    const version: Version
    var children: map<Nibble, Child>
    var cachedHash: Option<Hash>

    /** A cached hash is the hash of the current children. */
    ghost predicate Valid()
      reads this
    {
      cachedHash.Some? ==> cachedHash.value == DataHash(H, InternalData(children, version))
    }

    constructor (H: Hasher, version: Version)
      ensures Valid() && this.H == H && this.version == version && children == map[]
    {
      this.H, this.version, children, cachedHash := H, version, map[], None;
    }

    /** A copy of the children under a new version; the hash is not carried over. */
    constructor Clone(H: Hasher, source: map<Nibble, Child>, newVersion: Version)
      ensures Valid() && this.H == H && version == newVersion && children == source
    {
      this.H, version, children, cachedHash := H, newVersion, source, None;
    }

    method SetChild(nibble: Byte, child: Child) returns (ok: bool)
      requires Valid()
      modifies this
      ensures Valid() && ok == (nibble < 16)
      ensures children == if ok then old(children)[nibble := child] else old(children)
    {
      if nibble > 15 { return false; }
      children := children[nibble := child];
      cachedHash := None;
      return true;
    }

    method RemoveChild(nibble: Nibble)
      requires Valid()
      modifies this
      ensures Valid() && children == old(children) - {nibble}
    {
      children := children - {nibble};
      cachedHash := None;
    }

    method GetOnlyChild() returns (nibble: Nibble, child: Child, ok: bool)
      ensures ok == (|children| == 1)
      ensures ok ==> children == map[nibble := child]
    {
      nibble, child, ok := 0, Child(ZERO, 0, false), |children| == 1;
      if ok {
        nibble :| nibble in children;
        child := children[nibble];
        OnlyKey(children, nibble);
      }
    }

    /** Cached or not, the hash is the hash of the present children. */
    method Hash() returns (h: Hash)
      requires Valid()
      modifies `cachedHash
      ensures Valid() && h == DataHash(H, Freeze())
    {
      if cachedHash.Some? { return cachedHash.value; }
      hide Slots, InternalPreimage;
      ghost var m := ChildHashes(children);
      StartSlots(m);
      var data: Bytes := [INTERNAL_TAG];
      for nibble := 0 to 16
        invariant data + Slots(m, nibble) == InternalPreimage(m)
      {
        var slot: Bytes := if nibble in children then [nibble] + children[nibble].hash else EMPTY_TREE_HASH;
        ExtendSlots(m, nibble, data, slot, InternalPreimage(m));
        data := data + slot;
      }
      NoMoreSlots(m, data);
      h := H(data);
      cachedHash := Some(h);
    }

    /** The value kept in the pending writes once the node is finished. */
    function Freeze(): NodeData
      reads this
    {
      InternalData(children, version)
    }
  }

  lemma OnlyKey(m: map<Nibble, Child>, n: Nibble)
    requires |m| == 1 && n in m
    ensures m == map[n := m[n]]
  {
    assert |m.Keys - {n}| == 0;
    assert m.Keys == {n} + (m.Keys - {n});
  }
}
