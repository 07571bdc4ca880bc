/**
 Node preimages and the Merkle hash of an abstract tree
 (pkg/tree/internal_node.go, pkg/tree/leaf_node.go, pkg/crypto).
 */
module Merkle {
  import opened Types

  const INTERNAL_TAG: Byte := 0
  const LEAF_TAG: Byte := 1

  /** Stands for a missing child inside an internal node's preimage. */
  const EMPTY_TREE_HASH: Hash := [
    0x5b, 0xa9, 0x3c, 0x9d, 0xb0, 0xcf, 0xf9, 0x3f,
    0x52, 0xb5, 0x21, 0xd7, 0x81, 0x4c, 0x7f, 0xa0,
    0x8a, 0xbe, 0x86, 0x13, 0x5f, 0x74, 0x6b, 0x46,
    0x68, 0xb0, 0x13, 0xbc, 0xd1, 0xc4, 0x8e, 0x9b]

  /** What is hashed for a leaf. */
  function LeafPreimage(k: Key, vh: Hash): Bytes {
    [LEAF_TAG] + k + vh
  }

  /** One child position: tag and hash, or the bare sentinel. */
  function Slot(m: map<Byte, Hash>, n: Byte): (s: Bytes)
    ensures |s| == if n in m then 33 else 32
  {
    if n in m then [n] + m[n] else EMPTY_TREE_HASH
  }

  /** The child positions from `n` on. */
  function Slots(m: map<Byte, Hash>, n: nat): Bytes
    requires n <= 16
    decreases 16 - n
  {
    if n == 16 then [] else Slot(m, n) + Slots(m, n + 1)
  }

  /** What is hashed for an internal node. */
  function InternalPreimage(m: map<Byte, Hash>): Bytes {
    [INTERNAL_TAG] + Slots(m, 0)
  }

  lemma StartSlots(m: map<Byte, Hash>)
    ensures [INTERNAL_TAG] + Slots(m, 0) == InternalPreimage(m)
  {
  }

  /** Appending one position to a partly built preimage. */
  lemma ExtendSlots(m: map<Byte, Hash>, n: nat, data: Bytes, slot: Bytes, whole: Bytes)
    requires n < 16 && data + Slots(m, n) == whole && slot == Slot(m, n)
    ensures (data + slot) + Slots(m, n + 1) == whole
  {
    hide Slot;
    SlotsStep(m, n);
    assert data + (slot + Slots(m, n + 1)) == (data + slot) + Slots(m, n + 1);
  }

  lemma SlotsStep(m: map<Byte, Hash>, n: nat)
    requires n < 16
    ensures Slots(m, n) == Slot(m, n) + Slots(m, n + 1)
  {
    hide Slot;
  }

  lemma NoMoreSlots(m: map<Byte, Hash>, data: Bytes)
    ensures data + Slots(m, 16) == data
  {
  }

  /** The sixteen positions can be parsed back although they have two widths. */
  lemma {:induction false} SlotsInjective(a: map<Byte, Hash>, b: map<Byte, Hash>, n: nat, i: Nibble)
    requires n <= i
    requires Slots(a, n) == Slots(b, n)
    ensures i in a <==> i in b
    ensures i in a ==> a[i] == b[i]
    decreases 16 - n
  {
    hide Slots;
    var sa, sb := Slot(a, n), Slot(b, n);
    SlotsStep(a, n);
    SlotsStep(b, n);
    assert (sa + Slots(a, n + 1))[0] == (sb + Slots(b, n + 1))[0];
    assert n in a <==> n in b;
    assert sa == (sa + Slots(a, n + 1))[..|sa|] == sb;
    if i == n {
      if n in a {
        assert sa[1..] == a[n] && sb[1..] == b[n];
      }
    } else {
      assert Slots(a, n + 1) == (sa + Slots(a, n + 1))[|sa|..] == Slots(b, n + 1);
      SlotsInjective(a, b, n + 1, i);
    }
  }

  lemma InternalPreimageInjective(a: map<Byte, Hash>, b: map<Byte, Hash>)
    requires InternalPreimage(a) == InternalPreimage(b)
    ensures forall i: Nibble :: i in a <==> i in b
    ensures forall i: Nibble :: i in a ==> a[i] == b[i]
  {
    assert Slots(a, 0) == InternalPreimage(a)[1..] == Slots(b, 0);
    forall i: Nibble
      ensures (i in a <==> i in b) && (i in a ==> a[i] == b[i])
    {
      SlotsInjective(a, b, 0, i);
    }
  }

  lemma LeafPreimageInjective(k: Key, vh: Hash, k': Key, vh': Hash)
    requires LeafPreimage(k, vh) == LeafPreimage(k', vh')
    ensures k == k' && vh == vh'
  {
    assert k == LeafPreimage(k, vh)[1..33] && k' == LeafPreimage(k', vh')[1..33];
    assert vh == LeafPreimage(k, vh)[33..] && vh' == LeafPreimage(k', vh')[33..];
  }

  // ----- What is hashed, by position -----

  /** 65 bytes: 1, the key, the value hash. */
  ghost predicate IsLeafString(b: Bytes, k: Key, vh: Hash) {
    |b| == 65 && b[0] == 1 && (forall i | 0 <= i < 32 :: b[1 + i] == k[i]) && forall i | 0 <= i < 32 ::
      b[33 + i] == vh[i]
  }

  lemma LeafStringIs(b: Bytes, k: Key, vh: Hash)
    ensures IsLeafString(b, k, vh) <==> b == LeafPreimage(k, vh)
  {
    var c := LeafPreimage(k, vh);
    assert c[1..33] == k && c[33..65] == vh;
    if IsLeafString(b, k, vh) {
      forall i | 0 <= i < 65
        ensures b[i] == c[i]
      {
        if 0 < i < 33 { assert b[1 + (i - 1)] == k[i - 1] == c[1..33][i - 1]; }
        if 33 <= i { assert b[33 + (i - 33)] == vh[i - 33] == c[33..65][i - 33]; }
      }
    } else if b == c {
      forall i | 0 <= i < 32
        ensures c[1 + i] == k[i] && c[33 + i] == vh[i]
      {
        assert c[1 + i] == c[1..33][i] && c[33 + i] == c[33..65][i];
      }
    }
  }

  /** How many children stand before position `n`. */
  function Before(m: map<Byte, Hash>, n: nat): nat
    requires n <= 16
  {
    if n == 0 then 0 else Before(m, n - 1) + if n - 1 in m then 1 else 0
  }

  /** Where position `n` starts: 32 bytes for every position before it, and one more for every child among them. */
  function Offset(m: map<Byte, Hash>, n: nat): nat
    requires n <= 16
  {
    1 + 32 * n + Before(m, n)
  }

  /** At its position a child has its nibble and its hash, a missing child the sentinel. */
  ghost predicate HasSlot(b: Bytes, m: map<Byte, Hash>, n: Nibble) {
    var o := Offset(m, n);
    if n in m then o + 33 <= |b| && b[o] == n && b[o + 1..o + 33] == m[n]
    else o + 32 <= |b| && b[o..o + 32] == EMPTY_TREE_HASH
  }

  /** One zero byte and the sixteen positions, and nothing else. */
  ghost predicate IsInternalString(b: Bytes, m: map<Byte, Hash>) {
    |b| == Offset(m, 16) && b[0] == 0 && forall n: Nibble :: HasSlot(b, m, n)
  }

  lemma {:induction false} SlotsAt(m: map<Byte, Hash>, n: nat)
    requires n <= 16
    ensures Offset(m, n) <= |InternalPreimage(m)| && InternalPreimage(m)[Offset(m, n)..] == Slots(m, n)
  {
    hide Slots, Slot;
    var b := InternalPreimage(m);
    if n == 0 {
      assert b[1..] == Slots(m, 0);
    } else {
      SlotsAt(m, n - 1);
      SlotsStep(m, n - 1);
      var o, o' := Offset(m, n - 1), Offset(m, n);
      assert o' == o + |Slot(m, n - 1)|;
      assert b[o'..] == b[o..][o' - o..];
    }
  }

  lemma {:induction false} SlotsFrom(b: Bytes, m: map<Byte, Hash>, n: nat)
    requires n <= 16 && IsInternalString(b, m)
    ensures Offset(m, n) <= |b| && b[Offset(m, n)..] == Slots(m, n)
    decreases 16 - n
  {
    hide Slots, Slot, Offset, HasSlot;
    if n < 16 {
      SlotsFrom(b, m, n + 1);
      SlotsStep(m, n);
      assert HasSlot(b, m, n);
      OneSlot(b, m, n);
      var o, o' := Offset(m, n), Offset(m, n + 1);
      assert b[o..] == b[o..o'] + b[o'..];
    } else {
      NoMoreSlots(m, []);
    }
  }

  lemma OneSlot(b: Bytes, m: map<Byte, Hash>, n: Nibble)
    requires HasSlot(b, m, n)
    ensures Offset(m, n) <= Offset(m, n + 1) <= |b| && b[Offset(m, n)..Offset(m, n + 1)] == Slot(m, n)
  {
    var o := Offset(m, n);
    if n in m { assert b[o..o + 33] == [b[o]] + b[o + 1..o + 33]; }
  }

  /** What is hashed for an internal node, position by position. */
  lemma InternalStringIs(b: Bytes, m: map<Byte, Hash>)
    ensures IsInternalString(b, m) <==> b == InternalPreimage(m)
  {
    hide Slots, Offset, HasSlot;
    var c := InternalPreimage(m);
    if IsInternalString(b, m) {
      SlotsFrom(b, m, 0);
      FirstOffset(m);
      assert b == [b[0]] + b[1..];
    }
    if b == c {
      SlotsAt(m, 16);
      NoMoreSlots(m, []);
      forall n: Nibble
        ensures HasSlot(b, m, n)
      {
        SlotAt(m, n);
      }
    }
  }

  lemma FirstOffset(m: map<Byte, Hash>)
    ensures Offset(m, 0) == 1
  {
  }

  lemma SlotAt(m: map<Byte, Hash>, n: Nibble)
    ensures HasSlot(InternalPreimage(m), m, n)
  {
    hide Slots;
    var b, o := InternalPreimage(m), Offset(m, n);
    SlotsAt(m, n);
    SlotsStep(m, n);
    var s := Slot(m, n);
    assert b[o..][..|s|] == s;
    assert b[o..o + |s|] == s;
    if n in m { assert b[o + 1..o + 33] == s[1..]; }
  }

  /** The tree that a set of stored nodes stands for: version numbers and hashes forgotten. */
  datatype Tree = Leaf(key: Key, vh: Hash) | Branch(kids: map<Nibble, Tree>)

  /** The hashes of a node's children. */
  function KidHashes(H: Hasher, t: Tree): (m: map<Byte, Hash>)
    requires t.Branch?
    ensures forall n: Nibble :: n in m <==> n in t.kids
    decreases t, 0
  {
    map n | n in t.kids :: TreeHash(H, t.kids[n])
  }

  function Preimage(H: Hasher, t: Tree): (b: Bytes)
    ensures |b| > 0 && b[0] == if t.Leaf? then LEAF_TAG else INTERNAL_TAG
    decreases t, 1
  {
    match t
    case Leaf(k, vh) => LeafPreimage(k, vh)
    case Branch(_) => InternalPreimage(KidHashes(H, t))
  }

  function TreeHash(H: Hasher, t: Tree): Digest
    decreases t, 2
  {
    H(Preimage(H, t))
  }

  /** Every string hashed to compute `TreeHash(H, t)`. */
  ghost function Hashed(H: Hasher, t: Tree): set<Bytes> {
    {Preimage(H, t)} +
    match t
    case Leaf(_, _) => {}
    case Branch(kids) => set n, x | n in kids && x in Hashed(H, kids[n]) :: x
  }

  lemma HashedKid(H: Hasher, t: Tree, n: Nibble)
    requires t.Branch? && n in t.kids
    ensures Hashed(H, t.kids[n]) <= Hashed(H, t)
  {
    forall x | x in Hashed(H, t.kids[n])
      ensures x in Hashed(H, t)
    {
      assert n in t.kids && x in Hashed(H, t.kids[n]);
    }
  }

  /** A root hash commits to the whole tree, unless two of the strings hashed for it collide. */
  lemma {:induction false} TreeHashInjective(H: Hasher, a: Tree, b: Tree)
    requires TreeHash(H, a) == TreeHash(H, b)
    requires CollisionFree(H, Hashed(H, a) + Hashed(H, b))
    ensures a == b
    decreases a
  {
    SamePreimage(H, a, b);
    if a.Leaf? {
      LeafPreimageInjective(a.key, a.vh, b.key, b.vh);
    } else {
      hide Hashed, CollisionFree, TreeHash;
      KidsMatch(H, a, b);
      forall n | n in a.kids
        ensures a.kids[n] == b.kids[n]
      {
        KidCollisionFree(H, a, b, n);
        TreeHashInjective(H, a.kids[n], b.kids[n]);
      }
      assert a.kids == b.kids;
    }
  }

  lemma SamePreimage(H: Hasher, a: Tree, b: Tree)
    requires TreeHash(H, a) == TreeHash(H, b) && CollisionFree(H, Hashed(H, a) + Hashed(H, b))
    ensures Preimage(H, a) == Preimage(H, b) && a.Leaf? == b.Leaf?
  {
    assert Preimage(H, a) in Hashed(H, a) && Preimage(H, b) in Hashed(H, b);
  }

  lemma KidsMatch(H: Hasher, a: Tree, b: Tree)
    requires a.Branch? && b.Branch? && Preimage(H, a) == Preimage(H, b)
    ensures a.kids.Keys == b.kids.Keys && forall n | n in a.kids :: TreeHash(H, a.kids[n]) == TreeHash(H, b.kids[n])
  {
    hide InternalPreimage;
    InternalPreimageInjective(KidHashes(H, a), KidHashes(H, b));
    assert forall n: Nibble :: n in a.kids <==> n in b.kids;
  }

  lemma KidCollisionFree(H: Hasher, a: Tree, b: Tree, n: Nibble)
    requires a.Branch? && b.Branch? && n in a.kids && n in b.kids && CollisionFree(H, Hashed(H, a) + Hashed(H, b))
    ensures CollisionFree(H, Hashed(H, a.kids[n]) + Hashed(H, b.kids[n]))
  {
    hide Hashed;
    HashedKid(H, a, n);
    HashedKid(H, b, n);
  }
}
