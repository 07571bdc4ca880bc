/**
 The contents of a version as a plain map from keys to values, and what a tree says about them.
 */
module Contents {
  import opened Types
  import opened Merkle
  import opened TreeMap

  type Contents = map<Key, Bytes>

  /** The tree holds exactly the keys of `m`, each with the hash of its value. */
  ghost predicate Shows(H: Hasher, t: Option<Tree>, m: Contents) {
    forall k :: LookupOpt(t, k, 0) == if k in m then Some(H(m[k])) else None
  }

  ghost predicate PlacedOpt(t: Option<Tree>) {
    t.Some? ==> Placed(t.value, [])
  }

  ghost predicate DeepOpt(t: Option<Tree>) {
    t.Some? ==> Deep(t.value, 0)
  }

  /** The root hash of a tree; the zero hash stands for an empty one. */
  function RootHash(H: Hasher, t: Option<Tree>): Hash {
    match t
    case None => ZERO
    case Some(t) => TreeHash(H, t)
  }

  ghost function PutOpt(t: Option<Tree>, k: Key, vh: Hash): Option<Tree> {
    if Lands(t, k, 0) then Some(Insert(t, k, vh, 0)) else t
  }

  ghost function RemoveOpt(t: Option<Tree>, k: Key): Option<Tree> {
    match t
    case None => None
    case Some(t) => Remove(t, k, 0)
  }

  lemma ShowsEmpty(H: Hasher, t: Option<Tree>, m: Contents)
    requires Shows(H, t, m) && PlacedOpt(t)
    ensures t.None? <==> m == map[]
  {
    if t.None? {
      forall k
        ensures k !in m
      {
        assert LookupOpt(t, k, 0) == None;
      }
    } else {
      var k, vh := SomeKey(t.value, []);
      assert LookupOpt(t, k, 0).Some?;
    }
  }

  /** A put updates the contents the tree shows. */
  lemma InsertShows(H: Hasher, t: Option<Tree>, m: Contents, k: Key, v: Bytes)
    requires Shows(H, t, m) && PlacedOpt(t) && Lands(t, k, 0)
    ensures Shows(H, Some(Insert(t, k, H(v), 0)), m[k := v])
    ensures PlacedOpt(Some(Insert(t, k, H(v), 0)))
    ensures DeepOpt(t) ==> DeepOpt(Some(Insert(t, k, H(v), 0)))
  {
    var t' := Insert(t, k, H(v), 0);
    forall k'
      ensures LookupOpt(Some(t'), k', 0) == if k' in m[k := v] then Some(H(m[k := v][k'])) else None
    {
      InsertLookup(t, k, H(v), 0, k');
      assert LookupOpt(t, k', 0) == if k' in m then Some(H(m[k'])) else None;
    }
    InsertIsPlaced(t, k, H(v), []);
    if DeepOpt(t) {
      InsertIsDeep(t, k, H(v), []);
    }
  }

  /** A delete updates the contents the tree shows. */
  lemma DeleteShows(H: Hasher, t: Option<Tree>, m: Contents, k: Key)
    requires Shows(H, t, m) && PlacedOpt(t)
    ensures Shows(H, RemoveOpt(t, k), m - {k})
    ensures PlacedOpt(RemoveOpt(t, k))
  {
    if t.Some? {
      forall k'
        ensures LookupOpt(RemoveOpt(t, k), k', 0) == if k' in m - {k} then Some(H((m - {k})[k'])) else None
      {
        DeleteLookup(t.value, k, [], k');
        assert LookupOpt(t, k', 0) == if k' in m then Some(H(m[k'])) else None;
      }
      DeleteLookup(t.value, k, [], k);
    } else {
      ShowsEmpty(H, t, m);
    }
  }

  /** Deleting a key without a twin keeps every leaf at depth 64; deleting one with a twin does not. */
  lemma DeleteStaysDeep(H: Hasher, t: Option<Tree>, m: Contents, k: Key)
    requires Shows(H, t, m) && PlacedOpt(t) && DeepOpt(t) && k in m
    ensures t.Some? && (HasTwin(t.value, k, 0) <==> TwinIn(m.Keys, k))
    ensures DeepOpt(RemoveOpt(t, k)) <==> !TwinIn(m.Keys, k)
  {
    assert LookupOpt(t, k, 0).Some?;
    assert KeysBelow(t.value, [], m.Keys) by {
      hide Lookup;
      forall x | [] <= ToPath(x)
        ensures x in m.Keys <==> Lookup(t.value, x, 0).Some?
      {
        assert LookupOpt(t, x, 0) == if x in m then Some(H(m[x])) else None;
      }
    }
    TwinAgrees(t.value, k, [], m.Keys);
    DeleteIsDeep(t.value, k, []);
  }

  /** History does not matter: two trees with the same contents are one tree, with one root hash. */
  lemma SameContentsSameTree(H: Hasher, a: Option<Tree>, b: Option<Tree>, m: Contents)
    requires Shows(H, a, m) && PlacedOpt(a) && DeepOpt(a)
    requires Shows(H, b, m) && PlacedOpt(b) && DeepOpt(b)
    ensures a == b && RootHash(H, a) == RootHash(H, b)
  {
    ShowsEmpty(H, a, m);
    ShowsEmpty(H, b, m);
    if a.Some? {
      forall k
        ensures Lookup(a.value, k, 0) == Lookup(b.value, k, 0)
      {
        assert LookupOpt(a, k, 0) == LookupOpt(b, k, 0);
      }
      assert SameLookups(a.value, b.value, 0);
      DeepTreesAreCanonical(a.value, b.value, []);
    }
  }

  // ----- The tree of a map -----

  /** The tree of a map: it shows the map and has all leaves at depth 64. */
  ghost predicate IsTreeOf(H: Hasher, t: Option<Tree>, m: Contents) {
    PlacedOpt(t) && DeepOpt(t) && Shows(H, t, m)
  }

  /** Every map has a tree, and `SameContentsSameTree` says that it has only one. */
  lemma {:induction false} MapHasTree(H: Hasher, m: Contents) returns (t: Option<Tree>)
    ensures IsTreeOf(H, t, m)
    decreases |m|
  {
    hide IsTreeOf;
    if m == map[] {
      EmptyTree(H);
      return None;
    }
    var k :| k in m;
    OneKeyLess(m, k);
    t := MapHasTree(H, m - {k});
    t := OneKeyMore(H, t, m - {k}, k, m[k]);
  }

  lemma EmptyTree(H: Hasher)
    ensures IsTreeOf(H, None, map[])
  {
  }

  lemma OneKeyLess(m: Contents, k: Key)
    requires k in m
    ensures |m - {k}| < |m| && (m - {k})[k := m[k]] == m
  {
    assert m.Keys == (m - {k}).Keys + {k};
    assert |m| == |m.Keys| && |m - {k}| == |(m - {k}).Keys|;
  }

  lemma OneKeyMore(H: Hasher, t: Option<Tree>, m: Contents, k: Key, v: Bytes) returns (t': Option<Tree>)
    requires IsTreeOf(H, t, m)
    ensures IsTreeOf(H, t', m[k := v])
  {
    hide Shows, Lands, Insert, Placed, Deep, ToPath;
    assert [] <= ToPath(k);
    InsertIsDeep(t, k, H(v), []);
    InsertShows(H, t, m, k, v);
    t' := Some(Insert(t, k, H(v), 0));
  }

  ghost function TreeOf(H: Hasher, m: Contents): (t: Option<Tree>)
    ensures IsTreeOf(H, t, m)
  {
    MapTreeExists(H, m);
    var t :| IsTreeOf(H, t, m);
    t
  }

  lemma MapTreeExists(H: Hasher, m: Contents)
    ensures exists t :: IsTreeOf(H, t, m)
  {
    hide IsTreeOf;
    var t := MapHasTree(H, m);
  }

  /** The root hash of a map: that of the one tree with all leaves at depth 64 that shows it. */
  ghost function HashOfMap(H: Hasher, m: Contents): Hash {
    RootHash(H, TreeOf(H, m))
  }

  lemma HashOfDeepTree(H: Hasher, t: Option<Tree>, m: Contents)
    requires IsTreeOf(H, t, m)
    ensures RootHash(H, t) == HashOfMap(H, m)
  {
    hide Shows, PlacedOpt, DeepOpt, RootHash;
    SameContentsSameTree(H, t, TreeOf(H, m), m);
  }

  ghost function OptHashed(H: Hasher, t: Option<Tree>): set<Bytes> {
    match t
    case None => {}
    case Some(t) => Hashed(H, t)
  }

  /** Every string that is hashed for the nodes of a map's tree. */
  ghost function MapStrings(H: Hasher, m: Contents): set<Bytes> {
    OptHashed(H, TreeOf(H, m))
  }

  /** Every string that is hashed for the nodes of the trees of some maps. */
  ghost function StringsOf(H: Hasher, maps: set<Contents>): set<Bytes> {
    set m, x | m in maps && x in MapStrings(H, m) :: x
  }

  /** The strings of any tree of a map are those of the map. */
  lemma TreeStrings(H: Hasher, t: Option<Tree>, m: Contents, maps: set<Contents>)
    requires IsTreeOf(H, t, m) && m in maps
    ensures OptHashed(H, t) == MapStrings(H, m) <= StringsOf(H, maps)
  {
    hide Shows, PlacedOpt, DeepOpt, OptHashed;
    SameContentsSameTree(H, t, TreeOf(H, m), m);
    forall x | x in MapStrings(H, m)
      ensures x in StringsOf(H, maps)
    {
      assert m in maps && x in MapStrings(H, m);
    }
  }

  lemma MoreMaps(H: Hasher, a: set<Contents>, b: set<Contents>)
    requires a <= b
    ensures StringsOf(H, a) <= StringsOf(H, b)
  {
    hide MapStrings;
  }

  /** Every string hashed for a version: its values and its nodes. */
  ghost function HashedFor(H: Hasher, t: Option<Tree>, m: Contents): set<Bytes> {
    m.Values + if t.None? then {} else Hashed(H, t.value)
  }

  /** Different contents have different root hashes, unless two of the strings hashed collide. */
  lemma SameRootSameContents(H: Hasher, a: Option<Tree>, ma: Contents, b: Option<Tree>, mb: Contents)
    requires Shows(H, a, ma) && PlacedOpt(a) && Shows(H, b, mb) && PlacedOpt(b)
    requires RootHash(H, a) == RootHash(H, b)
    requires CollisionFree(H, HashedFor(H, a, ma) + HashedFor(H, b, mb))
    ensures a == b && ma == mb
  {
    ShowsEmpty(H, a, ma);
    ShowsEmpty(H, b, mb);
    if a.Some? && b.Some? {
      TreeHashInjective(H, a.value, b.value);
      forall k
        ensures k in ma <==> k in mb
        ensures k in ma ==> ma[k] == mb[k]
      {
        assert LookupOpt(a, k, 0) == if k in ma then Some(H(ma[k])) else None;
        assert LookupOpt(b, k, 0) == if k in mb then Some(H(mb[k])) else None;
        if k in ma { assert ma[k] in ma.Values && mb[k] in mb.Values; }
      }
      assert ma.Keys == mb.Keys;
    }
  }
}
