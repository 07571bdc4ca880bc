/**
 Generating proofs from stored trees, and why they verify (pkg/proof/generator.go).
 */
module Generator {
  import opened Types
  import opened Merkle
  import opened TreeMap
  import opened Nodes
  import opened NodeStore
  import opened Contents
  import opened Reader
  import opened Proofs

  /** The level a proof for `k` records at a branch of depth `d`. */
  function LevelAt(H: Hasher, t: Tree, k: Key, d: nat): Sibling
    requires t.Branch? && d < MAX_DEPTH
  {
    Sibling(d, ToPath(k)[d], ZERO, KidHashes(H, t))
  }

  /** The levels on the way to `k`, down to a leaf or a missing child. */
  ghost function Levels(H: Hasher, t: Tree, k: Key, d: nat): seq<Sibling>
    decreases t
  {
    if t.Branch? && d < MAX_DEPTH then
      [LevelAt(H, t, k, d)] + (if ToPath(k)[d] in t.kids then Levels(H, t.kids[ToPath(k)[d]], k, d + 1) else [])
    else []
  }

  /** Levels from depth `d` down the key's way: depths in order, the key's nibbles, and a child to go on to. */
  ghost predicate AlongPath(s: seq<Sibling>, k: Key, d: nat) {
    (s == [] || |s| + d <= MAX_DEPTH) &&
    (forall i | 0 <= i < |s| :: s[i].depth == d + i) &&
    (forall i | 0 <= i < |s| :: d + i < MAX_DEPTH && s[i].nibble == ToPath(k)[d + i]) &&
    forall i | 0 <= i < |s| - 1 :: s[i].nibble in s[i].children
  }

  lemma OneMoreLevel(first: Sibling, rest: seq<Sibling>, k: Key, d: nat)
    requires d < MAX_DEPTH && first.depth == d && first.nibble == ToPath(k)[d] && AlongPath(rest, k, d + 1)
    requires rest != [] ==> first.nibble in first.children
    ensures AlongPath([first] + rest, k, d)
  {
    hide ToPath;
    var s := [first] + rest;
    forall i | 0 <= i < |s|
      ensures s[i].depth == d + i && d + i < MAX_DEPTH && s[i].nibble == ToPath(k)[d + i]
      ensures i < |s| - 1 ==> s[i].nibble in s[i].children
    {
      if i > 0 { assert s[i] == rest[i - 1] && rest[i - 1].depth == d + 1 + (i - 1); }
    }
  }

  lemma {:induction false} LevelsAreConsecutive(H: Hasher, t: Tree, k: Key, d: nat)
    ensures AlongPath(Levels(H, t, k, d), k, d)
    decreases t
  {
    hide ToPath, AlongPath;
    NoLevelsAtAll(k, d);
    if t.Branch? && d < MAX_DEPTH {
      var rest := if ToPath(k)[d] in t.kids then Levels(H, t.kids[ToPath(k)[d]], k, d + 1) else [];
      if ToPath(k)[d] in t.kids { LevelsAreConsecutive(H, t.kids[ToPath(k)[d]], k, d + 1); }
      NoLevelsAtAll(k, d + 1);
      OneMoreLevel(LevelAt(H, t, k, d), rest, k, d);
    }
  }

  lemma NoLevelsAtAll(k: Key, d: nat)
    ensures AlongPath([], k, d)
  {
  }

  /** Where the key is absent, a tree with all leaves at depth 64 ends in a missing child. */
  lemma DeepLeafIsFound(t: Tree, k: Key, p: Path)
    requires Placed(t, p) && Deep(t, |p|) && t.Leaf? && p <= ToPath(k)
    ensures t.key == k
  {
    FullPrefix(p, ToPath(t.key));
    FullPrefix(p, ToPath(k));
    ToPathInjective(t.key, k);
  }

  /** What a truthful proof starts from. */
  ghost function TrueStart(H: Hasher, t: Tree, k: Key, d: nat): Option<Hash> {
    match Lookup(t, k, d)
    case None => None
    case Some(vh) => Some(H(LeafPreimage(k, vh)))
  }

  /** No other key's leaf stands in the way of `k`. */
  ghost predicate Clear(t: Tree, k: Key, d: nat)
    decreases t
  {
    match t
    case Leaf(k', _) => k' == k
    case Branch(kids) => d < MAX_DEPTH && (ToPath(k)[d] in kids ==> Clear(kids[ToPath(k)[d]], k, d + 1))
  }

  /** The proof for `k` can do without a neighbour. */
  ghost predicate Provable(t: Tree, k: Key, p: Path) {
    Placed(t, p) && p <= ToPath(k) && Clear(t, k, |p|)
  }

  /** In a tree with all leaves at depth 64 no leaf is in the way, and none is in the way of a key that is there. */
  lemma {:induction false} IsClear(t: Tree, k: Key, p: Path)
    requires Placed(t, p) && p <= ToPath(k) && (Deep(t, |p|) || Lookup(t, k, |p|).Some?)
    ensures Clear(t, k, |p|)
    decreases t
  {
    hide ToPath;
    if t.Branch? {
      var n := ToPath(k)[|p|];
      assert p + [n] <= ToPath(k);
      if n in t.kids { IsClear(t.kids[n], k, p + [n]); }
    } else if Lookup(t, k, |p|).None? {
      DeepLeafIsFound(t, k, p);
    }
  }

  /** A key lands where no leaf is in its way. */
  lemma {:induction false} ClearLands(t: Tree, k: Key, d: nat)
    requires Clear(t, k, d)
    ensures Lands(Some(t), k, d)
    decreases t
  {
    hide ToPath;
    if t.Branch? && ToPath(k)[d] in t.kids { ClearLands(t.kids[ToPath(k)[d]], k, d + 1); }
  }

  lemma ProvableKid(H: Hasher, t: Tree, k: Key, p: Path)
    requires Provable(t, k, p) && t.Branch?
    ensures |p| < MAX_DEPTH
    ensures var n := ToPath(k)[|p|];
            n in t.kids ==>
              Provable(t.kids[n], k, p + [n]) && TrueStart(H, t.kids[n], k, |p| + 1) == TrueStart(H, t, k, |p|)
    ensures ToPath(k)[|p|] !in t.kids ==> TrueStart(H, t, k, |p|) == None
  {
    hide ToPath;
    var n := ToPath(k)[|p|];
    assert p + [n] <= ToPath(k);
  }

  lemma ProvableLeaf(H: Hasher, t: Tree, k: Key, p: Path)
    requires Provable(t, k, p) && t.Leaf?
    ensures TrueStart(H, t, k, |p|) == Some(TreeHash(H, t))
  {
  }

  lemma LevelsUnfold(H: Hasher, t: Tree, k: Key, d: nat)
    requires t.Branch? && d < MAX_DEPTH
    ensures var n := ToPath(k)[d];
            Levels(H, t, k, d) == [LevelAt(H, t, k, d)] + (if n in t.kids then Levels(H, t.kids[n], k, d + 1) else [])
  {
  }

  lemma NoLevels(H: Hasher, t: Tree, k: Key, p: Path)
    requires Provable(t, k, p)
    ensures t.Leaf? <==> Levels(H, t, k, |p|) == []
  {
    hide ToPath;
  }

  /** Climbing the levels of a tree gives the hash of the tree. */
  lemma {:induction false} HonestClimb(H: Hasher, t: Tree, k: Key, p: Path, s: seq<Sibling>)
    requires Provable(t, k, p)
    requires InDepth(s) && |p| <= |s| && s[|p|..] == Levels(H, t, k, |p|)
    ensures Climb(H, ToPath(k), s, TrueStart(H, t, k, |p|), |p|) == TreeHash(H, t)
    decreases t
  {
    hide *;
    var d := |p|;
    NoLevels(H, t, k, p);
    if t.Leaf? {
      assert |s[d..]| == 0;
      ProvableLeaf(H, t, k, p);
      ClimbTop(H, ToPath(k), s, TrueStart(H, t, k, d));
    } else {
      ProvableKid(H, t, k, p);
      LevelsUnfold(H, t, k, d);
      var n := ToPath(k)[d];
      assert s[d] == s[d..][0];
      if n in t.kids {
        var q := p + [n];
        assert s[|q|..] == s[d..][1..] == Levels(H, t.kids[n], k, |q|);
        HonestClimb(H, t.kids[n], k, q, s);
        NoLevels(H, t.kids[n], k, q);
        if t.kids[n].Leaf? { ProvableLeaf(H, t.kids[n], k, q); }
        LevelFilled(H, t, k, d, Some(TreeHash(H, t.kids[n])));
      } else {
        assert |s[d..]| == 1;
        LevelFilled(H, t, k, d, None);
      }
      ClimbUnfold(H, ToPath(k), s, TrueStart(H, t, k, d), d);
    }
  }

  lemma ClimbTop(H: Hasher, path: Path, s: seq<Sibling>, start: Option<Hash>)
    requires |path| == MAX_DEPTH && InDepth(s) && start.Some?
    ensures Climb(H, path, s, start, |s|) == start.value
  {
  }

  /** Filling a recorded level with what is truly below gives the node back. */
  lemma LevelFilled(H: Hasher, t: Tree, k: Key, d: nat, below: Option<Hash>)
    requires t.Branch? && d < MAX_DEPTH
    requires below == if ToPath(k)[d] in t.kids then Some(TreeHash(H, t.kids[ToPath(k)[d]])) else None
    ensures LevelAt(H, t, k, d).depth == d
    ensures H(InternalPreimage(Filled(LevelAt(H, t, k, d), ToPath(k)[d], below))) == TreeHash(H, t)
  {
    hide ToPath;
    assert Filled(LevelAt(H, t, k, d), ToPath(k)[d], below) == KidHashes(H, t);
  }

  // ----- Generation -----

  /** The proof that the tree itself justifies. */
  ghost predicate HonestProof(H: Hasher, t: Option<Tree>, p: Proof) {
    p.rootHash == RootHash(H, t) && p.neighbor.None? &&
    p.siblings == (if t.None? then [] else Levels(H, t.value, p.key, 0)) &&
    match LookupOpt(t, p.key, 0)
    case Some(h) => p.kind == Inclusion && p.value.Some? && H(p.value.value) == h
    case None => p.kind == ExclusionEmpty && p.value.None?
  }

  /** The neighbour named is a leaf of the tree that stands in the way of the key. */
  ghost predicate IsNeighbor(t: Tree, p: Proof, n: Neighbor) {
    Holds(t, n.key, n.valueHash) && n.key != p.key && n.divergeDepth == |n.path| == |p.siblings| &&
    n.path <= ToPath(p.key) && n.path <= ToPath(n.key)
  }

  /** What is generated from any tree: honest, or honest about a neighbour. */
  ghost predicate TruthfulProof(H: Hasher, t: Option<Tree>, p: Proof) {
    if p.neighbor.None? then HonestProof(H, t, p)
    else
      p.rootHash == RootHash(H, t) && p.kind == ExclusionNeighbor && p.value.None? && t.Some? &&
      p.siblings == Levels(H, t.value, p.key, 0) && Lookup(t.value, p.key, 0) == None &&
        IsNeighbor(t.value, p, p.neighbor.value)
  }

  /** Completeness: the verifier accepts every honest proof. */
  lemma HonestAccepted(H: Hasher, t: Option<Tree>, p: Proof)
    requires HonestProof(H, t, p) && p.key != ZERO_KEY
    requires t.Some? ==> Provable(t.value, p.key, [])
    ensures ValidProof(p) && InDepth(p.siblings) && p.kind != ExclusionNeighbor && Consecutive(p.siblings)
    ensures Climb(H, ToPath(StartKey(p)), p.siblings, StartHash(H, p), 0) == p.rootHash
  {
    hide Levels, ToPath, Placed, Clear, Lookup;
    if t.Some? {
      LevelsAreConsecutive(H, t.value, p.key, 0);
      assert p.siblings[0..] == p.siblings;
      HonestClimb(H, t.value, p.key, [], p.siblings);
      assert StartHash(H, p) == TrueStart(H, t.value, p.key, 0);
    }
  }

  // ----- Neighbours -----

  /** A key whose way ends at another key's leaf has that key's levels, and lands if the two part right there. */
  lemma {:induction false} SameWay(H: Hasher, t: Tree, k: Key, other: Key, p: Path)
    requires Placed(t, p) && p <= ToPath(k) && p <= ToPath(other)
    requires Lookup(t, other, |p|).Some? && Lookup(t, k, |p|) == None
    requires var d := |p| + |Levels(H, t, k, |p|)|; d <= MAX_DEPTH && ToPath(k)[..d] == ToPath(other)[..d]
    ensures var d := |p| + |Levels(H, t, k, |p|)|;
            && Levels(H, t, k, |p|) == Levels(H, t, other, |p|) && d < MAX_DEPTH
            && (Lands(Some(t), k, |p|) <==> ToPath(k)[d] != ToPath(other)[d])
    decreases t
  {
    hide *;
    var d := |p| + |Levels(H, t, k, |p|)|;
    if t.Branch? {
      BelowBranch(H, t, k, p);
      BelowBranch(H, t, other, p);
      var n := ToPath(k)[|p|];
      assert n == ToPath(k)[..d][|p|] == ToPath(other)[..d][|p|] == ToPath(other)[|p|];
      SameLevel(H, t, k, other, |p|);
      SameWay(H, t.kids[n], k, other, p + [n]);
    } else {
      SameLeaf(H, t, k, other, p);
    }
  }

  /** The way to `k` goes through one child. */
  lemma BelowBranch(H: Hasher, t: Tree, k: Key, p: Path)
    requires Placed(t, p) && t.Branch? && p <= ToPath(k)
    ensures |p| < MAX_DEPTH && |Levels(H, t, k, |p|)| > 0
    ensures var n := ToPath(k)[|p|];
            if n in t.kids then
              && Placed(t.kids[n], p + [n]) && p + [n] <= ToPath(k)
              && Lookup(t.kids[n], k, |p| + 1) == Lookup(t, k, |p|)
              && (Lands(Some(t), k, |p|) <==> Lands(Some(t.kids[n]), k, |p| + 1))
              && Levels(H, t, k, |p|) == [LevelAt(H, t, k, |p|)] + Levels(H, t.kids[n], k, |p| + 1)
            else Lookup(t, k, |p|) == None
  {
    hide *;
    ChildOnTheWay(t, k, p);
    LevelsUnfold(H, t, k, |p|);
  }

  lemma ChildOnTheWay(t: Tree, k: Key, p: Path)
    requires Placed(t, p) && t.Branch? && p <= ToPath(k)
    ensures |p| < MAX_DEPTH
    ensures var n := ToPath(k)[|p|];
            if n in t.kids then
              && Placed(t.kids[n], p + [n]) && p + [n] <= ToPath(k)
              && Lookup(t.kids[n], k, |p| + 1) == Lookup(t, k, |p|)
              && (Lands(Some(t), k, |p|) <==> Lands(Some(t.kids[n]), k, |p| + 1))
            else Lookup(t, k, |p|) == None
  {
    hide *;
    PlacedBelow(t, p);
    PrefixGrows(p, ToPath(k));
    LookupBelow(t, k, |p|);
    if ToPath(k)[|p|] in t.kids { LandsBelow(t, k, |p|); }
  }

  lemma PlacedBelow(t: Tree, p: Path)
    requires Placed(t, p) && t.Branch?
    ensures |p| < MAX_DEPTH && forall n | n in t.kids :: Placed(t.kids[n], p + [n])
  {
  }

  lemma PrefixGrows(p: Path, a: Path)
    requires p <= a && |p| < |a|
    ensures p + [a[|p|]] <= a
  {
  }

  lemma LookupBelow(t: Tree, k: Key, d: nat)
    requires t.Branch? && d < MAX_DEPTH
    ensures var n := ToPath(k)[d];
            Lookup(t, k, d) == if n in t.kids then Lookup(t.kids[n], k, d + 1) else None
  {
    hide ToPath;
  }

  lemma LandsBelow(t: Tree, k: Key, d: nat)
    requires t.Branch? && d < MAX_DEPTH && ToPath(k)[d] in t.kids
    ensures Lands(Some(t), k, d) <==> Lands(Some(t.kids[ToPath(k)[d]]), k, d + 1)
  {
    hide ToPath;
  }

  lemma SameLevel(H: Hasher, t: Tree, k: Key, other: Key, d: nat)
    requires t.Branch? && d < MAX_DEPTH && ToPath(k)[d] == ToPath(other)[d]
    ensures LevelAt(H, t, k, d) == LevelAt(H, t, other, d)
  {
  }

  lemma SameLeaf(H: Hasher, t: Tree, k: Key, other: Key, p: Path)
    requires Placed(t, p) && t.Leaf? && p <= ToPath(k) && p <= ToPath(other)
    requires Lookup(t, other, |p|).Some? && Lookup(t, k, |p|) == None
    ensures Levels(H, t, k, |p|) == Levels(H, t, other, |p|) == [] && |p| < MAX_DEPTH
    ensures Lands(Some(t), k, |p|) <==> ToPath(k)[|p|] != ToPath(other)[|p|]
  {
    hide ToPath;
    assert |p| < MAX_DEPTH by {
      hide *;
      if |p| == MAX_DEPTH {
        assert ToPath(k) == p == ToPath(other);
        ToPathInjective(k, other);
      }
    }
  }

  /** A proof that names a neighbour is accepted if and only if the key lands. */
  lemma NeighborAccepted(H: Hasher, t: Tree, p: Proof)
    requires TruthfulProof(H, Some(t), p) && p.neighbor.Some? && p.key != ZERO_KEY && Placed(t, [])
    requires p.neighbor.value.key != ZERO_KEY
    ensures Accepts(H, p) <==> Lands(Some(t), p.key, 0)
    ensures Consecutive(p.siblings) && WellAimed(p)
  {
    hide ToPath, Levels, Lands, Climb, Lookup, Placed, Holds, Clear, TreeHash, ValidSiblings;
    var n := p.neighbor.value;
    var d := |p.siblings|;
    LookupFindsAll(t, [], n.key, n.valueHash);
    LevelsAreConsecutive(H, t, p.key, 0);
    LevelsAreValid(H, t, p.key);
    assert ToPath(p.key)[..d] == n.path == ToPath(n.key)[..d];
    SameWay(H, t, p.key, n.key, []);
    IsClear(t, n.key, []);
    assert p.siblings[0..] == p.siblings;
    HonestClimb(H, t, n.key, [], p.siblings);
    SamePath(n.path, ToPath(p.key), ToPath(n.key));
  }

  lemma SamePath(p: Path, a: Path, b: Path)
    requires p <= a && p <= b
    ensures forall i | 0 <= i < |p| :: a[i] == b[i] == p[i]
  {
  }

  lemma LevelsAreValid(H: Hasher, t: Tree, k: Key)
    ensures ValidSiblings(Levels(H, t, k, 0)) && InDepth(Levels(H, t, k, 0))
  {
    hide Levels, ToPath;
    LevelsAreConsecutive(H, t, k, 0);
  }

  /** `n` has its leaf at depth `levels`; a key `k` that parts from it above has one where they part. */
  function Comb(n: Key, k: Key, vh: Hash, d: nat, levels: nat): Tree
    requires d <= levels <= MAX_DEPTH
    decreases levels - d
  {
    var a, b := ToPath(n), ToPath(k);
    if d == levels then Leaf(n, vh)
    else if a[d] == b[d] then Branch(map[a[d] := Comb(n, k, vh, d + 1, levels)])
    else Branch(map[a[d] := Comb(n, n, vh, d + 1, levels), b[d] := Leaf(k, vh)])
  }

  lemma {:induction false} CombHasBoth(H: Hasher, n: Key, k: Key, vh: Hash, d: nat, levels: nat)
    requires d <= levels <= MAX_DEPTH && ToPath(n)[..d] == ToPath(k)[..d]
    ensures var t := Comb(n, k, vh, d, levels);
            && Placed(t, ToPath(n)[..d]) && Lookup(t, n, d) == Some(vh) && |Levels(H, t, n, d)| == levels - d
            && (n == k || ToPath(n)[..levels] != ToPath(k)[..levels] ==> Lookup(t, k, d) == Some(vh))
    decreases levels - d
  {
    hide ToPath, Levels, Placed;
    if d < levels {
      var a, b := ToPath(n), ToPath(k);
      var below := Comb(n, if a[d] == b[d] then k else n, vh, d + 1, levels);
      assert a[..d + 1] == a[..d] + [a[d]] && b[..d + 1] == b[..d] + [b[d]];
      CombHasBoth(H, n, if a[d] == b[d] then k else n, vh, d + 1, levels);
      CombPlaced(a[..d], a[d], b[d], below, k, vh);
      LevelsUnfold(H, Comb(n, k, vh, d, levels), n, d);
    } else {
      CombEnds(H, n, vh, d);
    }
  }

  lemma CombPlaced(p: Path, i: Nibble, j: Nibble, below: Tree, k: Key, vh: Hash)
    requires |p| < MAX_DEPTH && Placed(below, p + [i]) && p + [j] <= ToPath(k)
    ensures Placed(Branch(map[i := below]), p)
    ensures i != j ==> Placed(Branch(map[i := below, j := Leaf(k, vh)]), p)
  {
    hide ToPath;
    assert i in map[i := below] && i in map[i := below, j := Leaf(k, vh)];
  }

  lemma CombEnds(H: Hasher, n: Key, vh: Hash, d: nat)
    requires d <= MAX_DEPTH
    ensures Placed(Leaf(n, vh), ToPath(n)[..d]) && Levels(H, Leaf(n, vh), n, d) == []
  {
    hide ToPath;
  }

  /**
   A neighbour proof that is not well aimed proves nothing: for the same two keys, the same path and
   the same number of levels there is a tree that has the key and an accepted proof that it does not.
   */
  lemma NeighborUnsound(H: Hasher, claim: Proof, vh: Hash) returns (t: Tree, p: Proof)
    requires claim.kind == ExclusionNeighbor && ValidKind(claim) && claim.key != ZERO_KEY && NeighborConsistent(claim)
    requires |claim.siblings| <= MAX_DEPTH && !WellAimed(claim)
    ensures Placed(t, []) && Lookup(t, claim.key, 0) == Some(vh)
    ensures p == claim.(neighbor := Some(claim.neighbor.value.(valueHash := vh)), siblings := p.siblings,
                        rootHash := TreeHash(H, t))
    ensures |p.siblings| == |claim.siblings| && Consecutive(p.siblings) && Accepts(H, p)
  {
    hide ToPath, Levels, Climb, Lookup, Placed, Clear, TreeHash, ValidSiblings, Comb;
    var n := claim.neighbor.value;
    t := Comb(n.key, claim.key, vh, 0, |claim.siblings|);
    CombHasBoth(H, n.key, claim.key, vh, 0, |claim.siblings|);
    assert ToPath(n.key)[..0] == [];
    p := claim.(neighbor := Some(n.(valueHash := vh)), siblings := Levels(H, t, n.key, 0), rootHash := TreeHash(H, t));
    LevelsAreValid(H, t, n.key);
    LevelsAreConsecutive(H, t, n.key, 0);
    IsClear(t, n.key, []);
    assert p.siblings[0..] == p.siblings;
    HonestClimb(H, t, n.key, [], p.siblings);
  }

  /** Walk down to `key`, recording every level. */
  method Generate(H: Hasher, source: NodeSource, v: Version, rootHash: Hash, key: Key, ghost t: Option<Tree>)
    returns (r: Option<Proof>)
    requires Readable(H, source, v, t)
    modifies source`entries, source`hits, source`misses
    ensures Readable(H, source, v, t)
    ensures r.None? <==> key == ZERO_KEY || (rootHash != ZERO && t.None?)
    ensures r.Some? ==> r.value.key == key && r.value.version == v
    ensures r.Some? && r.value.value.Some? ==>
              var x := r.value.value.value; H(x) in source.values && source.values[H(x)] == x
    ensures r.Some? && rootHash == RootHash(H, t) ==> TruthfulProof(H, t, r.value)
    ensures r.Some? && t.Some? && rootHash != ZERO ==> (r.value.neighbor.None? <==> Clear(t.value, key, 0))
    ensures r.Some? && rootHash == ZERO ==> r.value.neighbor.None?
  {
    hide NodeSource.Sound, RepOpt, OnTheWay, Placed, ToPath, Levels, Clear, ValuesHashed, Holds, HoldsAll, Lookup,
      IsNeighbor;
    if key == ZERO_KEY { return None; }
    if rootHash == ZERO {
      return Some(Proof(ExclusionEmpty, key, None, None, [], rootHash, v));
    }
    var root := source.Load(RootNodeKey(v));
    AtRoot(H, source.nodes, v, key, t);
    if root.None? { return None; }
    var path := ToPath(key);
    var node := root.value;
    var siblings: seq<Sibling> := [];
    ghost var s: Tree, w: Version := t.value, v;
    var depth := 0;
    while depth < MAX_DEPTH && node.InternalData?
      invariant depth <= MAX_DEPTH && source.Sound()
      invariant OnTheWay(H, source.nodes, t.value, key, depth, siblings, s, w, node)
    {
      var nibble := path[depth];
      OneLevel(H, source.nodes, t.value, key, depth, siblings, s, w, node);
      siblings := siblings + [Sibling(depth, nibble, ZERO, ChildHashes(node.children))];
      if nibble !in node.children {
        return Some(Proof(ExclusionEmpty, key, None, None, siblings, rootHash, v));
      }
      var child := node.children[nibble];
      var next := source.Load(NodeKey(child.version, path[..depth + 1]));
      node, s, w := next.value, s.kids[nibble], child.version;
      depth := depth + 1;
    }
    LeafReached(H, source, t.value, key, depth, siblings, s, w, node);
    var proof := LeafProof(H, source, v, rootHash, key, node, path[..depth], siblings, t.value, s);
    return Some(proof);
  }

  /** The walk to `k` in `t` has come to the node `node`, which stands for `s`, and has recorded every level. */
  ghost predicate OnTheWay(H: Hasher, nodes: NodeMap, t: Tree, k: Key, d: nat, siblings: seq<Sibling>, s: Tree,
                           w: Version, node: NodeData)
    requires d <= MAX_DEPTH
  {
    var p := ToPath(k)[..d];
    && Rep(H, nodes, 0, w, p, s) && Placed(s, p) && HoldsAll(t, s)
    && NodeKey(w, p) in nodes && nodes[NodeKey(w, p)] == node
    && Lookup(s, k, d) == Lookup(t, k, 0)
    && |siblings| == d && siblings + Levels(H, s, k, d) == Levels(H, t, k, 0)
    && (Clear(t, k, 0) <==> Clear(s, k, d))
  }

  lemma AtRoot(H: Hasher, nodes: NodeMap, v: Version, k: Key, t: Option<Tree>)
    requires RepOpt(H, nodes, 0, RootNodeKey(v), t) && PlacedOpt(t)
    ensures t.None? <==> RootNodeKey(v) !in nodes
    ensures t.Some? ==> OnTheWay(H, nodes, t.value, k, 0, [], t.value, v, nodes[RootNodeKey(v)])
  {
    hide Rep, Placed, ToPath, Levels, Clear, Lookup;
    NodeFound(H, nodes, 0, NodeKey(v, []), t);
    if t.Some? {
      assert ToPath(k)[..0] == [];
      assert [] + Levels(H, t.value, k, 0) == Levels(H, t.value, k, 0);
      HoldsSelf(t.value);
    }
  }

  /** One level down, or the end of the way. */
  lemma OneLevel(H: Hasher, nodes: NodeMap, t: Tree, k: Key, d: nat, siblings: seq<Sibling>, s: Tree, w: Version,
                 node: NodeData)
    requires d < MAX_DEPTH && OnTheWay(H, nodes, t, k, d, siblings, s, w, node) && node.InternalData?
    ensures var n := ToPath(k)[d];
            var more := siblings + [Sibling(d, n, ZERO, ChildHashes(node.children))];
            if n in node.children then
              var key := NodeKey(node.children[n].version, ToPath(k)[..d + 1]);
              && key in nodes && s.Branch? && n in s.kids
              && OnTheWay(H, nodes, t, k, d + 1, more, s.kids[n], key.version, nodes[key])
            else more == Levels(H, t, k, 0) && Lookup(t, k, 0) == None && Clear(t, k, 0)
  {
    hide Rep, Placed, ToPath, Levels, Clear, Lookup, Holds, HoldsAll;
    var p, n := ToPath(k)[..d], ToPath(k)[d];
    Descend(H, nodes, w, p, s, k, d);
    assert ToPath(k)[..d + 1] == p + [n];
    ClearUnfold(s, k, d);
    RecordLevel(H, nodes, w, p, s, k, d, siblings);
    if n in s.kids { HoldsKid(t, s, n); }
  }

  lemma ClearUnfold(t: Tree, k: Key, d: nat)
    requires t.Branch? && d < MAX_DEPTH
    ensures Clear(t, k, d) <==> (ToPath(k)[d] in t.kids ==> Clear(t.kids[ToPath(k)[d]], k, d + 1))
  {
    hide ToPath;
  }

  /** The way ends at a leaf whose value is stored. */
  lemma LeafReached(H: Hasher, source: NodeSource, t: Tree, k: Key, d: nat, siblings: seq<Sibling>, s: Tree,
                    w: Version, node: NodeData)
    requires d <= MAX_DEPTH && OnTheWay(H, source.nodes, t, k, d, siblings, s, w, node)
    requires (d < MAX_DEPTH ==> node.LeafData?)
    requires ValuesHashed(H, source.values)
    requires forall key :: key in source.nodes && source.nodes[key].LeafData? ==>
        source.nodes[key].valueHash in source.values
    ensures node.LeafData? && s == Leaf(node.key, node.valueHash) && Placed(s, ToPath(k)[..d]) && HoldsAll(t, s)
    ensures |siblings| == d && siblings == Levels(H, t, k, 0)
    ensures Lookup(t, k, 0) == if node.key == k then Some(node.valueHash) else None
    ensures node.valueHash in source.values && H(source.values[node.valueHash]) == node.valueHash
    ensures Clear(t, k, 0) <==> node.key == k
  {
    hide Rep, Placed, ToPath, Levels, Lookup, HoldsAll, ValuesHashed;
    var p := ToPath(k)[..d];
    AtLeaf(H, source.nodes, w, p, s, k, d);
    LeafHasNoLevels(H, source.nodes, w, p, s, k, d);
    assert siblings + [] == siblings;
    ValueAtHand(H, source, NodeKey(w, p));
  }

  /** The proof at a leaf: of inclusion if it is the key's, of a neighbour otherwise. */
  method LeafProof(H: Hasher, source: NodeSource, v: Version, rootHash: Hash, key: Key, node: NodeData, taken: Path,
                   siblings: seq<Sibling>,
                   ghost t: Tree, ghost s: Tree)
    returns (p: Proof)
    requires source.Sound() && node.LeafData? && s == Leaf(node.key, node.valueHash) && taken <= ToPath(key)
    requires |taken| == |siblings|
    requires Placed(s, taken) && HoldsAll(t, s) && siblings == Levels(H, t, key, 0)
    requires Lookup(t, key, 0) == if node.key == key then Some(node.valueHash) else None
    requires node.valueHash in source.values && H(source.values[node.valueHash]) == node.valueHash
    ensures p.key == key && p.version == v && (p.neighbor.None? <==> node.key == key)
    ensures p.value.Some? ==> var x := p.value.value; H(x) in source.values && source.values[H(x)] == x
    ensures rootHash == TreeHash(H, t) ==> TruthfulProof(H, Some(t), p)
  {
    hide NodeSource.Sound, Placed, ToPath, Levels, Holds, HoldsAll, Lookup, IsNeighbor, TreeHash;
    if node.key == key {
      var value := LoadValue(H, source, node.valueHash);
      return Proof(Inclusion, key, Some(value.value), None, siblings, rootHash, v);
    }
    var neighbor := Neighbor(node.key, node.valueHash, taken, |taken|);
    p := Proof(ExclusionNeighbor, key, None, Some(neighbor), siblings, rootHash, v);
    LeafStandsIn(t, s, taken, p, neighbor);
  }

  /** Every leaf of `s` is a leaf of `t`. */
  ghost predicate HoldsAll(t: Tree, s: Tree) {
    forall k, vh | Holds(s, k, vh) :: Holds(t, k, vh)
  }

  lemma HoldsSelf(t: Tree)
    ensures HoldsAll(t, t)
  {
  }

  lemma HoldsKid(t: Tree, s: Tree, n: Nibble)
    requires HoldsAll(t, s) && s.Branch? && n in s.kids
    ensures HoldsAll(t, s.kids[n])
  {
    forall k, vh | Holds(s.kids[n], k, vh)
      ensures Holds(t, k, vh)
    {
      assert Holds(s, k, vh);
    }
  }

  lemma LeafStandsIn(t: Tree, s: Tree, p: Path, proof: Proof, n: Neighbor)
    requires HoldsAll(t, s) && s == Leaf(n.key, n.valueHash) && Placed(s, p) && n.key != proof.key
    requires n.path == p && p <= ToPath(proof.key) && n.divergeDepth == |p| == |proof.siblings|
    ensures IsNeighbor(t, proof, n)
  {
    hide ToPath;
    assert Holds(s, s.key, s.vh);
  }

  lemma RecordLevel(H: Hasher, nodes: NodeMap, w: Version, p: Path, s: Tree, k: Key, d: nat, siblings: seq<Sibling>)
    requires Rep(H, nodes, 0, w, p, s) && s.Branch? && d < MAX_DEPTH
    ensures NodeKey(w, p) in nodes && nodes[NodeKey(w, p)].InternalData?
    ensures var level := Sibling(d, ToPath(k)[d], ZERO, ChildHashes(nodes[NodeKey(w, p)].children));
            var n := ToPath(k)[d];
            siblings + Levels(H, s, k, d) ==
              (siblings + [level]) + (if n in s.kids then Levels(H, s.kids[n], k, d + 1) else [])
  {
    hide ToPath;
    assert ChildHashes(nodes[NodeKey(w, p)].children) == KidHashes(H, s);
    LevelsUnfold(H, s, k, d);
  }

  lemma LeafHasNoLevels(H: Hasher, nodes: NodeMap, w: Version, p: Path, s: Tree, k: Key, d: nat)
    requires Rep(H, nodes, 0, w, p, s) && nodes[NodeKey(w, p)].LeafData?
    ensures s == Leaf(nodes[NodeKey(w, p)].key, nodes[NodeKey(w, p)].valueHash) && Levels(H, s, k, d) == []
  {
  }

  lemma ValueAtHand(H: Hasher, source: NodeSource, key: NodeKey)
    requires ValuesHashed(H, source.values)
    requires forall key :: key in source.nodes && source.nodes[key].LeafData? ==>
        source.nodes[key].valueHash in source.values
    requires key in source.nodes && source.nodes[key].LeafData?
    ensures var h := source.nodes[key].valueHash; h in source.values && H(source.values[h]) == h
  {
  }
}
