/**
 Merkle proofs: their validity check and their verification
 (pkg/proof/types.go, pkg/proof/verifier.go).
 */
module Proofs {
  import opened Types
  import opened Merkle
  import opened TreeMap
  import opened Contents

  datatype ProofKind = Inclusion | ExclusionEmpty | ExclusionNeighbor

  /** One level of a proof: the hashes of a node's children. */
  datatype Sibling = Sibling(depth: int, nibble: Byte, hash: Hash, children: map<Byte, Hash>)

  datatype Neighbor = Neighbor(key: Key, valueHash: Hash, path: seq<Byte>, divergeDepth: int)

  datatype Proof = Proof(kind: ProofKind, key: Key, value: Option<Bytes>, neighbor: Option<Neighbor>,
                         siblings: seq<Sibling>, rootHash: Hash, version: Version)

  // ----- Validity -----

  predicate ValidKind(p: Proof) {
    match p.kind
    case Inclusion => p.value.Some? && p.neighbor.None?
    case ExclusionEmpty => p.value.None? && p.neighbor.None?
    case ExclusionNeighbor =>
      p.value.None? && p.neighbor.Some? && p.neighbor.value.key != ZERO_KEY &&
      0 <= p.neighbor.value.divergeDepth <= MAX_DEPTH
  }

  predicate ValidSiblings(s: seq<Sibling>) {
    (forall i | 0 <= i < |s| :: 0 <= s[i].depth <= MAX_DEPTH && s[i].nibble < 16) &&
    forall i | 0 < i < |s| :: s[i - 1].depth < s[i].depth
  }

  predicate ValidProof(p: Proof) {
    p.key != ZERO_KEY && ValidKind(p) && ValidSiblings(p.siblings)
  }

  /** Sibling `i` is in range and below the one before it. */
  predicate SiblingOk(s: seq<Sibling>, i: nat)
    requires i < |s|
  {
    0 <= s[i].depth <= MAX_DEPTH && s[i].nibble < 16 && (i > 0 ==> s[i - 1].depth < s[i].depth)
  }

  lemma SiblingsOneByOne(s: seq<Sibling>)
    ensures ValidSiblings(s) <==> forall i | 0 <= i < |s| :: SiblingOk(s, i)
  {
    if forall i | 0 <= i < |s| :: SiblingOk(s, i) {
      assert forall i | 0 <= i < |s| :: SiblingOk(s, i) ==> 0 <= s[i].depth <= MAX_DEPTH && s[i].nibble < 16;
      forall i | 0 < i < |s|
        ensures s[i - 1].depth < s[i].depth
      {
        assert SiblingOk(s, i);
      }
    } else {
      var i :| 0 <= i < |s| && !SiblingOk(s, i);
    }
  }

  method IsValid(p: Proof) returns (ok: bool)
    ensures ok <==> ValidProof(p)
  {
    hide ValidSiblings, SiblingOk;
    SiblingsOneByOne(p.siblings);
    if p.key == ZERO_KEY { return false; }
    ok := CheckKind(p);
    if !ok { return; }
    for i := 0 to |p.siblings|
      invariant forall j | 0 <= j < i :: SiblingOk(p.siblings, j)
    {
      var fine := CheckSibling(p.siblings, i);
      if !fine { return false; }
    }
    return true;
  }

  /** What a proof of each kind must and must not carry. */
  method CheckKind(p: Proof) returns (ok: bool)
    ensures ok == ValidKind(p)
  {
    match p.kind
    case Inclusion =>
      if p.value.None? { return false; }
      return p.neighbor.None?;
    case ExclusionEmpty =>
      return p.value.None? && p.neighbor.None?;
    case ExclusionNeighbor =>
      if p.neighbor.None? { return false; }
      if p.value.Some? { return false; }
      if p.neighbor.value.key == ZERO_KEY { return false; }
      return 0 <= p.neighbor.value.divergeDepth <= MAX_DEPTH;
  }

  method CheckSibling(s: seq<Sibling>, i: nat) returns (ok: bool)
    requires i < |s|
    ensures ok == SiblingOk(s, i)
  {
    if s[i].depth < 0 || s[i].depth > MAX_DEPTH { return false; }
    if s[i].nibble > 15 { return false; }
    if i > 0 && s[i].depth <= s[i - 1].depth { return false; }
    return true;
  }

  /** Valid depths increase strictly, so the last is the largest. */
  lemma {:induction false} DepthsIncrease(s: seq<Sibling>, i: nat, j: nat)
    requires ValidSiblings(s) && i < j < |s|
    ensures s[i].depth < s[j].depth
    decreases j
  {
    if i < j - 1 {
      DepthsIncrease(s, i, j - 1);
    }
  }

  // ----- Reconstruction -----

  /** The children of the node at one level: the proof's, with `below` on the path. */
  function Filled(sib: Sibling, n: Nibble, below: Option<Hash>): map<Byte, Hash> {
    if below.None? then sib.children - {n} else sib.children[n := below.value]
  }

  /** All levels can be matched with a nibble of the key. */
  predicate InDepth(s: seq<Sibling>) {
    forall i | 0 <= i < |s| :: 0 <= s[i].depth < MAX_DEPTH
  }

  /** What is hashed at level `i` when the levels below give `start`, or nothing. */
  function LevelPreimage(H: Hasher, path: Path, s: seq<Sibling>, start: Option<Hash>, i: nat): Bytes
    requires |path| == MAX_DEPTH && InDepth(s) && i < |s|
    decreases |s| - i, 0
  {
    var below := if i == |s| - 1 then start else Some(Climb(H, path, s, start, i + 1));
    InternalPreimage(Filled(s[i], path[s[i].depth], below))
  }

  /** The hash of the subtree at level `i`. */
  function Climb(H: Hasher, path: Path, s: seq<Sibling>, start: Option<Hash>, i: nat): Hash
    requires |path| == MAX_DEPTH && InDepth(s) && i <= |s|
    decreases |s| - i, 1
  {
    if i == |s| then (if start.None? then ZERO else start.value) else H(LevelPreimage(H, path, s, start, i))
  }

  datatype Verdict = Accepted | Rejected | IndexPanic

  /** The preimage of one level, built child by child. */
  method BuildLevel(sib: Sibling, target: Nibble, below: Option<Hash>) returns (data: Bytes)
    ensures data == InternalPreimage(Filled(sib, target, below))
  {
    hide Slots, InternalPreimage;
    ghost var m := Filled(sib, target, below);
    StartSlots(m);
    data := [INTERNAL_TAG];
    for nibble := 0 to 16
      invariant data + Slots(m, nibble) == InternalPreimage(m)
    {
      var slot: Bytes;
      if nibble == target {
        slot := if below.None? then EMPTY_TREE_HASH else [nibble] + below.value;
      } else if nibble in sib.children {
        slot := [nibble] + sib.children[nibble];
      } else {
        slot := EMPTY_TREE_HASH;
      }
      ExtendSlots(m, nibble, data, slot, InternalPreimage(m));
      data := data + slot;
    }
    NoMoreSlots(m, data);
  }

  /** Rebuild the root hash from the deepest level up. */
  method ReconstructRoot(H: Hasher, key: Key, s: seq<Sibling>, start: Option<Hash>) returns (root: Hash, panicked: bool)
    requires ValidSiblings(s)
    ensures panicked <==> !InDepth(s)
    ensures !panicked ==> root == Climb(H, ToPath(key), s, start, 0)
  {
    hide ToPath, Climb, ValidSiblings, InternalPreimage, Filled;
    var path := ToPath(key);
    root := if start.None? then ZERO else start.value;
    OnlyLastTooDeep(s);
    if |s| > 0 && s[|s| - 1].depth == MAX_DEPTH {
      // nibblePath[64] is out of range
      return ZERO, true;
    }
    ClimbStart(H, path, s, start);
    var i := |s|;
    while i > 0
      invariant 0 <= i <= |s|
      invariant root == Climb(H, path, s, start, i)
    {
      i := i - 1;
      ClimbUnfold(H, path, s, start, i);
      var data := BuildLevel(s[i], path[s[i].depth], if i == |s| - 1 then start else Some(root));
      root := H(data);
    }
    return root, false;
  }

  lemma ClimbStart(H: Hasher, path: Path, s: seq<Sibling>, start: Option<Hash>)
    requires |path| == MAX_DEPTH && InDepth(s)
    ensures Climb(H, path, s, start, |s|) == if start.None? then ZERO else start.value
  {
  }

  lemma OnlyLastTooDeep(s: seq<Sibling>)
    requires ValidSiblings(s)
    ensures InDepth(s) <==> |s| == 0 || s[|s| - 1].depth < MAX_DEPTH
    ensures |s| > 0 ==> s[|s| - 1].depth <= MAX_DEPTH
  {
    forall i | 0 <= i < |s| - 1
      ensures s[i].depth < MAX_DEPTH
    {
      DepthsIncrease(s, i, |s| - 1);
    }
  }

  // ----- Verification -----

  /** The hash of the leaf that an inclusion proof claims. */
  function ClaimedLeaf(H: Hasher, p: Proof): Hash
    requires p.value.Some?
  {
    H(LeafPreimage(p.key, H(p.value.value)))
  }

  /** The neighbour's key runs along its path with the key and parts from it at the stated depth. */
  ghost predicate Consistent(key: Key, n: Neighbor)
    requires 0 <= n.divergeDepth <= MAX_DEPTH
  {
    var d, a, b := n.divergeDepth, ToPath(key), ToPath(n.key);
    (forall i | 0 <= i < d && i < |n.path| :: a[i] == b[i] == n.path[i]) && (d < MAX_DEPTH ==> a[d] != b[d])
  }

  ghost predicate NeighborConsistent(p: Proof)
    requires p.neighbor.Some? && 0 <= p.neighbor.value.divergeDepth <= MAX_DEPTH
  {
    Consistent(p.key, p.neighbor.value)
  }

  /** Where the reconstruction starts: at a key, with a leaf hash or nothing. */
  function StartKey(p: Proof): Key {
    if p.kind == ExclusionNeighbor && p.neighbor.Some? then p.neighbor.value.key else p.key
  }

  function StartHash(H: Hasher, p: Proof): Option<Hash>
    requires ValidKind(p)
  {
    match p.kind
    case Inclusion => Some(ClaimedLeaf(H, p))
    case ExclusionEmpty => None
    case ExclusionNeighbor => Some(H(LeafPreimage(p.neighbor.value.key, p.neighbor.value.valueHash)))
  }

  /** The proof leads from its claim to its root hash. */
  ghost predicate Accepts(H: Hasher, p: Proof) {
    ValidProof(p) && InDepth(p.siblings) && (p.kind == ExclusionNeighbor ==> NeighborConsistent(p)) &&
    Climb(H, ToPath(StartKey(p)), p.siblings, StartHash(H, p), 0) == p.rootHash
  }

  /** The proof passes every check but names a depth that no key has. */
  ghost predicate Panics(p: Proof) {
    ValidProof(p) && !InDepth(p.siblings) && (p.kind == ExclusionNeighbor ==> NeighborConsistent(p))
  }

  /** What is hashed for a claimed leaf, built piece by piece. */
  method BuildLeaf(key: Key, valueHash: Hash) returns (data: Bytes)
    ensures IsLeafString(data, key, valueHash)
  {
    data := [1];
    data := data + key;
    data := data + valueHash;
    assert data[1..33] == key && data[33..65] == valueHash;
    forall i | 0 <= i < 32
      ensures data[1 + i] == key[i] && data[33 + i] == valueHash[i]
    {
      assert data[1 + i] == data[1..33][i] && data[33 + i] == data[33..65][i];
    }
  }

  /** Go along the claimed common path, then compare at the depth where the keys are said to part. */
  method CheckNeighbor(key: Key, n: Neighbor) returns (ok: bool)
    requires 0 <= n.divergeDepth <= MAX_DEPTH
    ensures ok == Consistent(key, n)
  {
    hide ToPath;
    var a, b := ToPath(key), ToPath(n.key);
    var i := 0;
    while i < n.divergeDepth && i < |n.path|
      invariant 0 <= i <= n.divergeDepth && i <= |n.path|
      invariant forall j | 0 <= j < i :: a[j] == b[j] == n.path[j]
    {
      if a[i] != b[i] { return false; }
      if a[i] != n.path[i] { return false; }
      i := i + 1;
    }
    if n.divergeDepth < MAX_DEPTH {
      if a[n.divergeDepth] == b[n.divergeDepth] { return false; }
    }
    return true;
  }

  /** The key to climb along and the hash to start from; nothing if the neighbour is inconsistent. */
  method StartOf(H: Hasher, p: Proof) returns (ok: bool, key: Key, start: Option<Hash>)
    requires ValidKind(p)
    ensures ok <==> (p.kind == ExclusionNeighbor ==> NeighborConsistent(p))
    ensures ok ==> key == StartKey(p) && start == StartHash(H, p)
  {
    hide ToPath;
    match p.kind
    case Inclusion =>
      var valueHash := H(p.value.value);
      var leafData := BuildLeaf(p.key, valueHash);
      LeafStringIs(leafData, p.key, valueHash);
      return true, p.key, Some(H(leafData));
    case ExclusionEmpty =>
      return true, p.key, None;
    case ExclusionNeighbor =>
      var n := p.neighbor.value;
      ok := CheckNeighbor(p.key, n);
      var leafData := BuildLeaf(n.key, n.valueHash);
      LeafStringIs(leafData, n.key, n.valueHash);
      return ok, n.key, Some(H(leafData));
  }

  method Verify(H: Hasher, p: Proof) returns (r: Verdict)
    ensures r == IndexPanic <==> Panics(p)
    ensures r == Accepted <==> Accepts(H, p)
    ensures p.key == ZERO_KEY ==> r == Rejected
    ensures p.kind == ExclusionNeighbor && p.neighbor.Some? && p.neighbor.value.key == ZERO_KEY ==> r == Rejected
  {
    hide ToPath, ValidSiblings, Consistent, StartHash;
    var ok := IsValid(p);
    if !ok { return Rejected; }
    var key, start;
    ok, key, start := StartOf(H, p);
    if !ok { return Rejected; }
    var root, panicked := ReconstructRoot(H, key, p.siblings, start);
    if panicked { return IndexPanic; }
    return if root == p.rootHash then Accepted else Rejected;
  }

  /** A valid proof may claim depth 64, for which a key has no nibble. */
  lemma PanicExample(key: Key, root: Hash) returns (p: Proof)
    requires key != ZERO_KEY
    ensures ValidProof(p) && Panics(p)
  {
    p := Proof(ExclusionEmpty, key, None, None, [Sibling(MAX_DEPTH, 0, ZERO, map[])], root, 1);
    assert p.siblings[0].depth == MAX_DEPTH;
  }

  // ----- Soundness -----

  /** Every string hashed to verify a proof. */
  ghost function ProofHashed(H: Hasher, p: Proof): set<Bytes>
    requires ValidKind(p) && InDepth(p.siblings)
  {
    (set i | 0 <= i < |p.siblings| :: LevelPreimage(H, ToPath(StartKey(p)), p.siblings, StartHash(H, p), i)) +
    match p.kind
    case Inclusion => {p.value.value, LeafPreimage(p.key, H(p.value.value))}
    case ExclusionEmpty => {}
    case ExclusionNeighbor => {LeafPreimage(p.neighbor.value.key, p.neighbor.value.valueHash)}
  }

  /** A tree whose hash matches one level of a proof is a branch that looks like that level. */
  lemma LevelMatches(H: Hasher, t: Tree, m: map<Byte, Hash>, known: set<Bytes>)
    requires TreeHash(H, t) == H(InternalPreimage(m))
    requires CollisionFree(H, known) && Preimage(H, t) in known && InternalPreimage(m) in known
    ensures t.Branch?
    ensures forall n: Nibble :: n in t.kids <==> n in m
    ensures forall n: Nibble :: n in t.kids ==> TreeHash(H, t.kids[n]) == m[n]
  {
    assert Preimage(H, t) == InternalPreimage(m);
    InternalPreimageInjective(KidHashes(H, t), m);
  }

  /** Whoever knows the root hash knows the leaf: no other tree gives it. */
  lemma {:induction false} InclusionDescends(H: Hasher, t: Tree, p: Proof, i: nat, known: set<Bytes>)
    requires ValidKind(p) && p.kind == Inclusion && InDepth(p.siblings) && i <= |p.siblings|
    requires TreeHash(H, t) == Climb(H, ToPath(p.key), p.siblings, StartHash(H, p), i)
    requires CollisionFree(H, known) && Hashed(H, t) <= known && ProofHashed(H, p) <= known
    ensures Holds(t, p.key, H(p.value.value))
    decreases |p.siblings| - i
  {
    hide ToPath;
    assert Preimage(H, t) in Hashed(H, t);
    if i == |p.siblings| {
      var leaf := LeafPreimage(p.key, H(p.value.value));
      assert leaf in ProofHashed(H, p);
      assert Preimage(H, t) == leaf;
      LeafPreimageInjective(p.key, H(p.value.value), t.key, t.vh);
    } else {
      var n := ToPath(p.key)[p.siblings[i].depth];
      var below := Some(Climb(H, ToPath(p.key), p.siblings, StartHash(H, p), i + 1));
      assert LevelPreimage(H, ToPath(StartKey(p)), p.siblings, StartHash(H, p), i) in ProofHashed(H, p);
      LevelMatches(H, t, Filled(p.siblings[i], n, below), known);
      HashedKid(H, t, n);
      InclusionDescends(H, t.kids[n], p, i + 1, known);
    }
  }

  /** The levels of the proof are the depths 0, 1, 2 and so on. */
  ghost predicate Consecutive(s: seq<Sibling>) {
    forall i | 0 <= i < |s| :: s[i].depth == i
  }

  lemma {:induction false} ExclusionDescends(H: Hasher, t: Tree, p: Proof, i: nat, known: set<Bytes>)
    requires ValidKind(p) && p.kind == ExclusionEmpty && InDepth(p.siblings) && i < |p.siblings|
    requires Consecutive(p.siblings)
    requires TreeHash(H, t) == Climb(H, ToPath(p.key), p.siblings, None, i)
    requires CollisionFree(H, known) && Hashed(H, t) <= known && ProofHashed(H, p) <= known
    ensures Lookup(t, p.key, i) == None
    decreases |p.siblings| - i
  {
    hide ToPath;
    assert Preimage(H, t) in Hashed(H, t);
    var n := ToPath(p.key)[i];
    var below := if i == |p.siblings| - 1 then None else Some(Climb(H, ToPath(p.key), p.siblings, None, i + 1));
    assert LevelPreimage(H, ToPath(StartKey(p)), p.siblings, StartHash(H, p), i) in ProofHashed(H, p);
    LevelMatches(H, t, Filled(p.siblings[i], n, below), known);
    if below.Some? {
      HashedKid(H, t, n);
      ExclusionDescends(H, t.kids[n], p, i + 1, known);
    }
  }

  /** An accepted inclusion proof tells the truth, unless two of the strings hashed collide. */
  lemma InclusionSound(H: Hasher, t: Option<Tree>, m: Contents, p: Proof)
    requires Shows(H, t, m) && PlacedOpt(t)
    requires ValidKind(p) && p.kind == Inclusion && InDepth(p.siblings)
    requires p.rootHash == RootHash(H, t)
    requires Climb(H, ToPath(p.key), p.siblings, StartHash(H, p), 0) == p.rootHash
    requires CollisionFree(H, HashedFor(H, t, m) + ProofHashed(H, p))
    ensures p.key in m && m[p.key] == p.value.value
  {
    hide ToPath, ProofHashed;
    var known := HashedFor(H, t, m) + ProofHashed(H, p);
    assert t.Some? by { hide Hashed, CollisionFree; }
    assert p.value.value in ProofHashed(H, p) by { ValueHashed(H, p); }
    InclusionDescends(H, t.value, p, 0, known);
    LookupFindsAll(t.value, [], p.key, H(p.value.value));
    assert LookupOpt(t, p.key, 0) == if p.key in m then Some(H(m[p.key])) else None;
    assert m[p.key] in m.Values;
  }

  lemma ValueHashed(H: Hasher, p: Proof)
    requires ValidKind(p) && p.kind == Inclusion && InDepth(p.siblings)
    ensures p.value.value in ProofHashed(H, p)
  {
  }

  /** An accepted exclusion proof over consecutive levels tells the truth, unless two strings collide. */
  lemma ExclusionSound(H: Hasher, t: Option<Tree>, m: Contents, p: Proof)
    requires Shows(H, t, m) && PlacedOpt(t)
    requires ValidKind(p) && p.kind == ExclusionEmpty && InDepth(p.siblings) && Consecutive(p.siblings)
    requires p.rootHash == RootHash(H, t)
    requires Climb(H, ToPath(p.key), p.siblings, StartHash(H, p), 0) == p.rootHash
    requires CollisionFree(H, HashedFor(H, t, m) + ProofHashed(H, p))
    ensures p.key !in m
  {
    hide ToPath, ProofHashed;
    var known := HashedFor(H, t, m) + ProofHashed(H, p);
    if t.Some? {
      assert |p.siblings| > 0;
      ExclusionDescends(H, t.value, p, 0, known);
    }
    assert LookupOpt(t, p.key, 0) == None;
  }

  /** The neighbour is another key, and the two agree at every level, so that its leaf is where the key's way ends. */
  predicate WellAimed(p: Proof)
    requires p.neighbor.Some?
  {
    var n, levels := p.neighbor.value.key, |p.siblings|;
    p.key != n && levels <= MAX_DEPTH && ToPath(p.key)[..levels] == ToPath(n)[..levels]
  }

  /** The path is spelled out down to the stated depth, and the levels do not go beyond it. */
  predicate Spelled(p: Proof)
    requires p.neighbor.Some?
  {
    var n := p.neighbor.value;
    |p.siblings| <= n.divergeDepth < MAX_DEPTH && |p.siblings| <= |n.path|
  }

  /** What the verifier checks: a path that is spelled out is the common path of the two keys, which part at its end. */
  lemma NeighborClaims(H: Hasher, p: Proof)
    requires Accepts(H, p) && p.kind == ExclusionNeighbor
    ensures var n := p.neighbor.value;
            var d, a, b := n.divergeDepth, ToPath(p.key), ToPath(n.key);
            && (d <= |n.path| ==> a[..d] == b[..d] == n.path[..d])
            && (d < MAX_DEPTH ==> a[d] != b[d])
            && (Spelled(p) ==> WellAimed(p))
  {
    hide ToPath, Climb, ValidSiblings;
    var n := p.neighbor.value;
    var a, b := ToPath(p.key), ToPath(n.key);
    if Spelled(p) {
      var s := |p.siblings|;
      assert forall i | 0 <= i < s :: a[i] == b[i];
      assert a[..s] == b[..s];
    }
  }

  lemma {:induction false} NeighborDescends(H: Hasher, t: Tree, p: Proof, i: nat, known: set<Bytes>)
    requires ValidKind(p) && p.kind == ExclusionNeighbor && InDepth(p.siblings) && i <= |p.siblings| <= MAX_DEPTH
    requires Consecutive(p.siblings)
    requires ToPath(p.key)[..|p.siblings|] == ToPath(p.neighbor.value.key)[..|p.siblings|]
    requires p.key != p.neighbor.value.key
    requires TreeHash(H, t) == Climb(H, ToPath(StartKey(p)), p.siblings, StartHash(H, p), i)
    requires CollisionFree(H, known) && Hashed(H, t) <= known && ProofHashed(H, p) <= known
    ensures Lookup(t, p.key, i) == None
    decreases |p.siblings| - i
  {
    hide ToPath;
    assert Preimage(H, t) in Hashed(H, t);
    var nb := p.neighbor.value;
    if i == |p.siblings| {
      var leaf := LeafPreimage(nb.key, nb.valueHash);
      assert leaf in ProofHashed(H, p);
      assert Preimage(H, t) == leaf;
      LeafPreimageInjective(nb.key, nb.valueHash, t.key, t.vh);
    } else {
      var n := ToPath(nb.key)[i];
      assert n == ToPath(nb.key)[..|p.siblings|][i] == ToPath(p.key)[i];
      var below := Some(Climb(H, ToPath(nb.key), p.siblings, StartHash(H, p), i + 1));
      assert LevelPreimage(H, ToPath(nb.key), p.siblings, StartHash(H, p), i) in ProofHashed(H, p);
      LevelMatches(H, t, Filled(p.siblings[i], n, below), known);
      HashedKid(H, t, n);
      NeighborDescends(H, t.kids[n], p, i + 1, known);
    }
  }

  /** An accepted neighbour proof that is well aimed tells the truth, unless two strings collide. */
  lemma NeighborSound(H: Hasher, t: Option<Tree>, m: Contents, p: Proof)
    requires Shows(H, t, m) && PlacedOpt(t)
    requires p.kind == ExclusionNeighbor && Accepts(H, p) && WellAimed(p) && Consecutive(p.siblings)
    requires p.rootHash == RootHash(H, t)
    requires CollisionFree(H, HashedFor(H, t, m) + ProofHashed(H, p))
    ensures p.key !in m
  {
    hide ToPath, ProofHashed, ValidSiblings, Climb;
    var known := HashedFor(H, t, m) + ProofHashed(H, p);
    if t.Some? {
      NeighborDescends(H, t.value, p, 0, known);
    }
    assert LookupOpt(t, p.key, 0) == None;
  }

  // ----- Exclusion proofs with gaps -----

  /** A key of ones with a two at depth `d`. */
  function GapPath(d: nat): (p: Path)
    requires d < MAX_DEPTH
    ensures |p| == MAX_DEPTH && forall i | 0 <= i < MAX_DEPTH :: p[i] == if i == d then 2 else 1
  {
    seq(MAX_DEPTH, i => if i == d then 2 else 1)
  }

  /** The levels of the tree that holds only `k`, labelled with the given depths. */
  ghost function GapLevels(H: Hasher, k: Key, vh: Hash, depths: seq<nat>): (s: seq<Sibling>)
    requires |depths| <= MAX_DEPTH && forall i | 0 <= i < |depths| :: depths[i] < MAX_DEPTH
    ensures |s| == |depths| && InDepth(s) && forall i | 0 <= i < |s| :: s[i].depth == depths[i]
  {
    seq(|depths|,
        i requires 0 <= i < |depths| => Sibling(depths[i], ToPath(k)[i], ZERO, KidHashes(H, Insert(None, k, vh, i))))
  }

  lemma {:induction false} GapClimb(H: Hasher, k: Key, vh: Hash, depths: seq<nat>, i: nat)
    requires forall j | 0 <= j < |depths| :: j <= depths[j] < MAX_DEPTH
    requires forall j | 0 < j < |depths| :: depths[j - 1] < depths[j]
    requires i < |depths| <= MAX_DEPTH && |depths| <= depths[|depths| - 1]
    requires ToPath(k) == GapPath(depths[|depths| - 1])
    ensures Climb(H, ToPath(k), GapLevels(H, k, vh, depths), None, i) == TreeHash(H, Insert(None, k, vh, i))
    decreases |depths| - i
  {
    hide *;
    var s := GapLevels(H, k, vh, depths);
    var path := ToPath(k);
    ChainKid(H, k, vh, i);
    var h := TreeHash(H, Insert(None, k, vh, i + 1));
    GapLevel(H, k, vh, depths, i);
    ClimbUnfold(H, path, s, None, i);
    if i == |depths| - 1 {
      FilledOne(s[i], path[depths[i]], path[i], h, None);
    } else {
      GapClimb(H, k, vh, depths, i + 1);
      GapsIncrease(depths, i, |depths| - 1);
      FilledOne(s[i], path[depths[i]], path[i], h, Some(h));
    }
  }

  lemma ClimbUnfold(H: Hasher, path: Path, s: seq<Sibling>, start: Option<Hash>, i: nat)
    requires |path| == MAX_DEPTH && InDepth(s) && i < |s|
    ensures s[i].depth < MAX_DEPTH
    ensures var below := if i == |s| - 1 then start else Some(Climb(H, path, s, start, i + 1));
            Climb(H, path, s, start, i) == H(InternalPreimage(Filled(s[i], path[s[i].depth], below)))
  {
  }

  lemma FilledOne(sib: Sibling, n: Nibble, a: Nibble, h: Hash, below: Option<Hash>)
    requires sib.children == map[a := h]
    requires if below.None? then n != a else n == a && below.value == h
    ensures Filled(sib, n, below) == map[a := h]
  {
  }

  lemma GapLevel(H: Hasher, k: Key, vh: Hash, depths: seq<nat>, i: nat)
    requires i < |depths| <= MAX_DEPTH && forall i | 0 <= i < |depths| :: depths[i] < MAX_DEPTH
    ensures GapLevels(H, k, vh, depths)[i] ==
        Sibling(depths[i], ToPath(k)[i], ZERO, KidHashes(H, Insert(None, k, vh, i)))
  {
  }

  /** On the way to the only key, each node has one child. */
  lemma ChainKid(H: Hasher, k: Key, vh: Hash, d: nat)
    requires d < MAX_DEPTH
    ensures Lands(None, k, d) && Lands(None, k, d + 1) && Insert(None, k, vh, d).Branch?
    ensures KidHashes(H, Insert(None, k, vh, d)) == map[ToPath(k)[d] := TreeHash(H, Insert(None, k, vh, d + 1))]
    ensures TreeHash(H, Insert(None, k, vh, d)) ==
        H(InternalPreimage(map[ToPath(k)[d] := TreeHash(H, Insert(None, k, vh, d + 1))]))
  {
    hide ToPath;
    assert Insert(None, k, vh, d) == Branch(map[ToPath(k)[d] := Insert(None, k, vh, d + 1)]);
  }

  lemma {:induction false} GapsIncrease(depths: seq<nat>, i: nat, j: nat)
    requires forall j | 0 < j < |depths| :: depths[j - 1] < depths[j]
    requires i < j < |depths|
    ensures depths[i] < depths[j] && depths[i] - i <= depths[j] - j
    decreases j
  {
    if i < j - 1 { GapsIncrease(depths, i, j - 1); }
  }

  /**
   The depths must be consecutive: for every increasing list of depths with a gap there is a
   version with one key and an accepted proof, over these depths, that the key is absent.
   */
  lemma GapUnsound(H: Hasher, depths: seq<nat>, value: Bytes, version: Version) returns (p: Proof, t: Tree)
    requires 0 < |depths| <= MAX_DEPTH && depths[|depths| - 1] < MAX_DEPTH
    requires forall j | 0 < j < |depths| :: depths[j - 1] < depths[j]
    requires exists j :: 0 <= j < |depths| && depths[j] != j
    ensures |p.siblings| == |depths| && forall i | 0 <= i < |depths| :: p.siblings[i].depth == depths[i]
    ensures p.kind == ExclusionEmpty && Accepts(H, p)
    ensures Placed(t, []) && Deep(t, 0) && Shows(H, Some(t), map[p.key := value]) && p.rootHash == RootHash(H, Some(t))
  {
    hide *;
    var last := |depths| - 1;
    GapsAreWide(depths);
    var k := FromPath(GapPath(depths[last]));
    assert ToPath(k)[if depths[last] == 0 then 1 else 0] == 1;
    NonZeroNibble(k, if depths[last] == 0 then 1 else 0);
    OneKey(H, k, value);
    t := Insert(None, k, H(value), 0);
    GapClimb(H, k, H(value), depths, 0);
    p := Proof(ExclusionEmpty, k, None, None, GapLevels(H, k, H(value), depths), TreeHash(H, t), version);
    GapValid(H, depths, H(value), p);
    GapAccepted(H, p);
  }

  lemma GapAccepted(H: Hasher, p: Proof)
    requires ValidProof(p) && InDepth(p.siblings) && p.kind == ExclusionEmpty
    requires Climb(H, ToPath(StartKey(p)), p.siblings, StartHash(H, p), 0) == p.rootHash
    ensures Accepts(H, p)
  {
    hide ToPath, Climb;
  }

  lemma GapsAreWide(depths: seq<nat>)
    requires 0 < |depths| && depths[|depths| - 1] < MAX_DEPTH
    requires forall j | 0 < j < |depths| :: depths[j - 1] < depths[j]
    requires exists j :: 0 <= j < |depths| && depths[j] != j
    ensures forall j | 0 <= j < |depths| :: j <= depths[j] < MAX_DEPTH
    ensures |depths| <= depths[|depths| - 1]
  {
    var last := |depths| - 1;
    forall j | 0 <= j < |depths|
      ensures depths[j] <= depths[last] && depths[j] - j <= depths[last] - last && j <= depths[j]
    {
      if j < last { GapsIncrease(depths, j, last); }
      if 0 < j { GapsIncrease(depths, 0, j); }
    }
  }

  /** The tree that holds one key. */
  lemma OneKey(H: Hasher, k: Key, value: Bytes)
    ensures Lands(None, k, 0)
    ensures var t := Insert(None, k, H(value), 0); Placed(t, []) && Deep(t, 0) && Shows(H, Some(t), map[k := value])
    ensures RootHash(H, Some(Insert(None, k, H(value), 0))) == TreeHash(H, Insert(None, k, H(value), 0))
  {
    hide Insert, Placed, Deep;
    InsertShows(H, None, map[], k, value);
    assert map[][k := value] == map[k := value];
  }

  lemma GapValid(H: Hasher, depths: seq<nat>, vh: Hash, p: Proof)
    requires 0 < |depths| <= MAX_DEPTH && forall i | 0 <= i < |depths| :: depths[i] < MAX_DEPTH
    requires forall j | 0 < j < |depths| :: depths[j - 1] < depths[j]
    requires p.kind == ExclusionEmpty && p.key != ZERO_KEY && p.value.None? && p.neighbor.None?
    requires p.siblings == GapLevels(H, p.key, vh, depths)
    ensures ValidProof(p) && StartKey(p) == p.key && StartHash(H, p) == None
  {
    hide ToPath, KidHashes;
    forall i | 0 <= i < |depths|
      ensures p.siblings[i].nibble < 16 && p.siblings[i].depth == depths[i]
    {
      GapLevel(H, p.key, vh, depths, i);
    }
  }

  lemma NonZeroNibble(k: Key, i: nat)
    requires i < MAX_DEPTH && ToPath(k)[i] != 0
    ensures k != ZERO_KEY
  {
  }
}
