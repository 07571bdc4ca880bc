/**
 Abstract trees as maps from keys to value hashes: lookup, insertion and deletion, the shape of
 a tree, and the fact that a tree with all leaves at full depth is determined by its contents.
 */
module TreeMap {
  import opened Types
  import opened Merkle

  // ----- Shape -----

  /** Every leaf hangs below a prefix of its own key; internal nodes are not empty. */
  ghost predicate Placed(t: Tree, p: Path) {
    match t
    case Leaf(k, _) => p <= ToPath(k)
    case Branch(kids) =>
      |p| < MAX_DEPTH && kids != map[] &&
      forall n | n in kids :: Placed(kids[n], p + [n])
  }

  /** Every leaf is at depth 64. */
  ghost predicate Deep(t: Tree, d: nat) {
    match t
    case Leaf(_, _) => d == MAX_DEPTH
    case Branch(kids) => forall n | n in kids :: Deep(kids[n], d + 1)
  }

  /** There is a leaf for `k` somewhere in the tree. */
  ghost predicate Holds(t: Tree, k: Key, vh: Hash) {
    match t
    case Leaf(k', vh') => k == k' && vh == vh'
    case Branch(kids) => exists n :: n in kids && Holds(kids[n], k, vh)
  }

  // ----- Lookup -----

  /** Follow the nibbles of `k` from depth `d`. */
  function Lookup(t: Tree, k: Key, d: nat): Option<Hash> {
    match t
    case Leaf(k', vh) => if k == k' then Some(vh) else None
    case Branch(kids) =>
      if d < MAX_DEPTH && ToPath(k)[d] in kids then Lookup(kids[ToPath(k)[d]], k, d + 1) else None
  }

  function LookupOpt(t: Option<Tree>, k: Key, d: nat): Option<Hash> {
    match t
    case None => None
    case Some(t) => Lookup(t, k, d)
  }

  /** Following the path finds exactly what is anywhere in a placed tree. */
  lemma {:induction false} LookupFindsAll(t: Tree, p: Path, k: Key, vh: Hash)
    requires Placed(t, p)
    ensures Lookup(t, k, |p|) == Some(vh) <==> Holds(t, k, vh)
    ensures Lookup(t, k, |p|).Some? ==> p <= ToPath(k)
    decreases t
  {
    if t.Branch? {
      var n := ToPath(k)[|p|];
      forall i | i in t.kids
        ensures Holds(t.kids[i], k, vh) ==> i == n
      {
        LookupFindsAll(t.kids[i], p + [i], k, vh);
      }
      if n in t.kids {
        LookupFindsAll(t.kids[n], p + [n], k, vh);
      }
    }
  }

  /** A placed tree is never empty. */
  lemma {:induction false} SomeKey(t: Tree, p: Path) returns (k: Key, vh: Hash)
    requires Placed(t, p)
    ensures p <= ToPath(k) && Lookup(t, k, |p|) == Some(vh) && Holds(t, k, vh)
    decreases t
  {
    if t.Leaf? {
      k, vh := t.key, t.vh;
    } else {
      var n :| n in t.kids;
      k, vh := SomeKey(t.kids[n], p + [n]);
    }
  }

  // ----- Canonical form -----

  /** The two trees give the same answers from depth `d` on. */
  ghost predicate SameLookups(a: Tree, b: Tree, d: nat) {
    forall k :: Lookup(a, k, d) == Lookup(b, k, d)
  }

  /** Trees with all leaves at depth 64 and the same contents are the same tree. */
  lemma {:induction false} DeepTreesAreCanonical(a: Tree, b: Tree, p: Path)
    requires Placed(a, p) && Placed(b, p) && Deep(a, |p|) && Deep(b, |p|)
    requires SameLookups(a, b, |p|)
    ensures a == b
    decreases a
  {
    var k, vh := SomeKey(a, p);
    assert Lookup(b, k, |p|) == Some(vh);
    if a.Leaf? {
      assert |p| == MAX_DEPTH;
    } else {
      assert b.Branch?;
      forall n | n in a.kids
        ensures n in b.kids
      {
        KidPresence(a, b, p, n);
      }
      forall n | n in b.kids
        ensures n in a.kids
      {
        KidPresence(b, a, p, n);
      }
      forall n | n in a.kids
        ensures a.kids[n] == b.kids[n]
      {
        KidLookups(a, b, p, n);
        DeepTreesAreCanonical(a.kids[n], b.kids[n], p + [n]);
      }
      assert a.kids.Keys == b.kids.Keys;
      assert a.kids == b.kids;
    }
  }

  lemma KidPresence(a: Tree, b: Tree, p: Path, n: Nibble)
    requires a.Branch? && b.Branch? && Placed(a, p)
    requires n in a.kids
    requires SameLookups(a, b, |p|)
    ensures n in b.kids
  {
    var q := p + [n];
    var k, vh := SomeKey(a.kids[n], q);
    assert ToPath(k)[|p|] == q[|p|] == n;
    assert Lookup(a, k, |p|) == Lookup(b, k, |p|);
  }

  lemma KidLookups(a: Tree, b: Tree, p: Path, n: Nibble)
    requires a.Branch? && b.Branch? && Placed(a, p) && Placed(b, p)
    requires n in a.kids && n in b.kids
    requires SameLookups(a, b, |p|)
    ensures SameLookups(a.kids[n], b.kids[n], |p + [n]|)
  {
    var q := p + [n];
    var x, y := a.kids[n], b.kids[n];
    forall k
      ensures Lookup(x, k, |q|) == Lookup(y, k, |q|)
    {
      assert Lookup(a, k, |p|) == Lookup(b, k, |p|);
      LookupFindsAll(x, q, k, ZERO);
      LookupFindsAll(y, q, k, ZERO);
      if q <= ToPath(k) {
        assert ToPath(k)[|p|] == q[|p|] == n;
      }
    }
  }

  // ----- Insertion -----

  /** The child of `t` in position `n`. */
  function Kid(t: Option<Tree>, n: Nibble): Option<Tree> {
    if t.Some? && t.value.Branch? && n in t.value.kids then Some(t.value.kids[n]) else None
  }

  function KidsOf(t: Option<Tree>): map<Nibble, Tree> {
    if t.Some? && t.value.Branch? then t.value.kids else map[]
  }

  /** A leaf met on the way to `k` belongs to `k` or parts from it at its own depth. */
  ghost predicate Lands(t: Option<Tree>, k: Key, d: nat)
    decreases MAX_DEPTH + 1 - d
  {
    if t.None? then true
    else if t.value.Leaf? then
      t.value.key == k || (d < MAX_DEPTH && ToPath(t.value.key)[d] != ToPath(k)[d])
    else
      d < MAX_DEPTH && Lands(Kid(t, ToPath(k)[d]), k, d + 1)
  }

  ghost function Insert(t: Option<Tree>, k: Key, vh: Hash, d: nat): Tree
    requires d <= MAX_DEPTH && Lands(t, k, d)
    decreases MAX_DEPTH - d
  {
    if t.Some? && t.value.Leaf? then
      var Leaf(k', vh') := t.value;
      if k' == k then Leaf(k, vh)
      else Branch(map[ToPath(k')[d] := Leaf(k', vh'), ToPath(k)[d] := Leaf(k, vh)])
    else if d == MAX_DEPTH then Leaf(k, vh)
    else
      var n := ToPath(k)[d];
      var kids := if t.None? then map[] else t.value.kids;
      Branch(kids[n := Insert(Kid(t, n), k, vh, d + 1)])
  }

  lemma {:induction false} InsertIsPlaced(t: Option<Tree>, k: Key, vh: Hash, p: Path)
    requires p <= ToPath(k)
    requires t.Some? ==> Placed(t.value, p)
    requires Lands(t, k, |p|)
    ensures Placed(Insert(t, k, vh, |p|), p)
    decreases MAX_DEPTH - |p|
  {
    hide *;
    PlacedCases(t, k, p);
    if (t.Some? && t.value.Leaf?) || |p| == |ToPath(k)| {
      LeafInserted(t, k, vh, p);
    } else {
      var n := ToPath(k)[|p|];
      InsertBranch(t, k, vh, |p|);
      assert |p + [n]| == |p| + 1;
      InsertIsPlaced(Kid(t, n), k, vh, p + [n]);
      KidReplaced(KidsOf(t), n, Insert(Kid(t, n), k, vh, |p| + 1), p);
    }
  }

  /** What an insertion finds at its place. */
  lemma PlacedCases(t: Option<Tree>, k: Key, p: Path)
    requires p <= ToPath(k) && (t.Some? ==> Placed(t.value, p))
    ensures |p| <= |ToPath(k)| == MAX_DEPTH
    ensures t.Some? && t.value.Branch? ==> |p| < MAX_DEPTH
    ensures |p| < MAX_DEPTH ==>
              var n := ToPath(k)[|p|];
              && p + [n] <= ToPath(k) && (Kid(t, n).Some? ==> Placed(Kid(t, n).value, p + [n]))
              && forall i | i in KidsOf(t) :: Placed(KidsOf(t)[i], p + [i])
  {
    hide ToPath;
  }

  /** A leaf is put in place of nothing or of its own, or beside another. */
  lemma LeafInserted(t: Option<Tree>, k: Key, vh: Hash, p: Path)
    requires p <= ToPath(k) && Lands(t, k, |p|) && (t.Some? ==> t.value.Leaf? && Placed(t.value, p))
    requires t.None? ==> |p| == MAX_DEPTH
    ensures Placed(Insert(t, k, vh, |p|), p)
  {
    hide ToPath;
    if t.Some? && t.value.key != k { SplitIsPlaced(t.value, Leaf(k, vh), p); }
  }

  lemma SplitIsPlaced(a: Tree, b: Tree, p: Path)
    requires a.Leaf? && b.Leaf? && p <= ToPath(a.key) && p <= ToPath(b.key) && |p| < MAX_DEPTH
    requires ToPath(a.key)[|p|] != ToPath(b.key)[|p|]
    ensures Placed(Branch(map[ToPath(a.key)[|p|] := a, ToPath(b.key)[|p|] := b]), p)
  {
    hide ToPath;
    assert p + [ToPath(a.key)[|p|]] <= ToPath(a.key);
    assert p + [ToPath(b.key)[|p|]] <= ToPath(b.key);
    assert ToPath(a.key)[|p|] in map[ToPath(a.key)[|p|] := a, ToPath(b.key)[|p|] := b];
  }

  /** One level of an insertion. */
  lemma InsertBranch(t: Option<Tree>, k: Key, vh: Hash, d: nat)
    requires d < MAX_DEPTH && Lands(t, k, d) && (t.Some? ==> t.value.Branch?)
    ensures Lands(Kid(t, ToPath(k)[d]), k, d + 1)
    ensures Insert(t, k, vh, d) == Branch(KidsOf(t)[ToPath(k)[d] := Insert(Kid(t, ToPath(k)[d]), k, vh, d + 1)])
  {
    hide ToPath;
  }

  lemma KidReplaced(kids: map<Nibble, Tree>, n: Nibble, kid: Tree, p: Path)
    requires |p| < MAX_DEPTH && (forall i | i in kids :: Placed(kids[i], p + [i])) && Placed(kid, p + [n])
    ensures Placed(Branch(kids[n := kid]), p)
  {
    assert n in kids[n := kid];
  }

  /** Insertion sets one key and changes no other. */
  lemma {:induction false} InsertLookup(t: Option<Tree>, k: Key, vh: Hash, d: nat, k': Key)
    requires d <= MAX_DEPTH && Lands(t, k, d)
    ensures Lookup(Insert(t, k, vh, d), k', d) == if k' == k then Some(vh) else LookupOpt(t, k', d)
    decreases MAX_DEPTH - d
  {
    if !(t.Some? && t.value.Leaf?) && d < MAX_DEPTH {
      InsertLookup(Kid(t, ToPath(k)[d]), k, vh, d + 1, k');
    }
  }

  /** In a tree with all leaves at depth 64 every insertion lands and keeps them there. */
  lemma {:induction false} InsertIsDeep(t: Option<Tree>, k: Key, vh: Hash, p: Path)
    requires p <= ToPath(k)
    requires t.Some? ==> Placed(t.value, p) && Deep(t.value, |p|)
    ensures Lands(t, k, |p|) && Deep(Insert(t, k, vh, |p|), |p|)
    decreases MAX_DEPTH - |p|
  {
    var d := |p|;
    if t.Some? && t.value.Leaf? {
      ToPathInjective(t.value.key, k);
    } else if d < MAX_DEPTH {
      var n := ToPath(k)[d];
      assert p + [n] <= ToPath(k);
      InsertIsDeep(Kid(t, n), k, vh, p + [n]);
    }
  }

  // ----- Deletion -----

  /** An emptied node disappears and a lone leaf replaces its parent. */
  ghost function Collapse(kids: map<Nibble, Tree>): Option<Tree> {
    if kids == map[] then None
    else if |kids| == 1 then
      var n :| n in kids;
      if kids[n].Leaf? then Some(kids[n]) else Some(Branch(kids))
    else Some(Branch(kids))
  }

  /** Put `kid` in position `n`, or nothing there. */
  function Replace(kids: map<Nibble, Tree>, n: Nibble, kid: Option<Tree>): map<Nibble, Tree> {
    if kid.None? then kids - {n} else kids[n := kid.value]
  }

  /** What is left of `t` without `k`; `t` itself when `k` is not in it. */
  ghost function Remove(t: Tree, k: Key, d: nat): Option<Tree>
    decreases t
  {
    match t
    case Leaf(k', _) => if k == k' then None else Some(t)
    case Branch(kids) =>
      if Lookup(t, k, d).None? then Some(t)
      else
        Collapse(Replace(kids, ToPath(k)[d], Remove(kids[ToPath(k)[d]], k, d + 1)))
  }

  lemma ReplaceLookup(kids: map<Nibble, Tree>, n: Nibble, kid: Option<Tree>, k: Key, d: nat)
    requires d < MAX_DEPTH
    ensures Lookup(Branch(Replace(kids, n, kid)), k, d) ==
            if ToPath(k)[d] == n then LookupOpt(kid, k, d + 1) else Lookup(Branch(kids), k, d)
  {
  }

  lemma CollapseLookup(kids: map<Nibble, Tree>, k: Key, p: Path)
    requires |p| < MAX_DEPTH
    requires forall n | n in kids :: Placed(kids[n], p + [n])
    ensures LookupOpt(Collapse(kids), k, |p|) == Lookup(Branch(kids), k, |p|)
    ensures Collapse(kids).Some? ==> Placed(Collapse(kids).value, p)
  {
    if kids != map[] && |kids| == 1 {
      var m :| m in kids && Collapse(kids) == if kids[m].Leaf? then Some(kids[m]) else Some(Branch(kids));
      if kids[m].Leaf? {
        Singleton(kids, m);
        assert (p + [m])[|p|] == m;
      }
    }
  }

  lemma Singleton<T>(m: map<Nibble, T>, n: Nibble)
    requires |m| == 1 && n in m
    ensures m.Keys == {n}
  {
    assert |m.Keys - {n}| == 0;
    assert m.Keys == {n} + (m.Keys - {n});
  }

  /** Deletion removes one key and changes no other, wherever the leaves are. */
  lemma {:induction false} DeleteLookup(t: Tree, k: Key, p: Path, k': Key)
    requires Placed(t, p)
    ensures LookupOpt(Remove(t, k, |p|), k', |p|) == if k' == k then None else Lookup(t, k', |p|)
    ensures Remove(t, k, |p|).Some? ==> Placed(Remove(t, k, |p|).value, p)
    decreases t
  {
    if t.Branch? && Lookup(t, k, |p|).Some? {
      var n := ToPath(k)[|p|];
      var q := p + [n];
      DeleteLookup(t.kids[n], k, q, k');
      var kids := Replace(t.kids, n, Remove(t.kids[n], k, |q|));
      ReplaceLookup(t.kids, n, Remove(t.kids[n], k, |q|), k', |p|);
      CollapseLookup(kids, k', p);
      assert Remove(t, k, |p|) == Collapse(kids);
      assert Lookup(t, k', |p|) == Lookup(Branch(t.kids), k', |p|);
    }
  }

  /** Of two keys alone in the tree that agree on 63 nibbles, deleting one lifts the other's leaf all the way up. */
  lemma {:induction false} LoneTwinLifts(a: Key, b: Key, ha: Hash, hb: Hash, d: nat)
    requires d < MAX_DEPTH && a != b && Alike(a, b)
    ensures Lands(None, a, d) && Lands(Some(Insert(None, a, ha, d)), b, d)
    ensures var t := Insert(Some(Insert(None, a, ha, d)), b, hb, d);
            Lookup(t, b, d).Some? && Remove(t, b, d) == Some(Leaf(a, ha))
    decreases MAX_DEPTH - d
  {
    hide ToPath, Insert, Lands, Remove, Lookup;
    if d < MAX_DEPTH - 1 {
      LoneTwinLifts(a, b, ha, hb, d + 1);
      SameNibble(a, b, d);
      LiftOnce(a, b, ha, hb, d);
    } else {
      TwinsPart(a, b);
      LiftFirst(a, b, ha, hb);
    }
  }

  lemma SameNibble(a: Key, b: Key, d: nat)
    requires Alike(a, b) && d < MAX_DEPTH - 1
    ensures ToPath(a)[d] == ToPath(b)[d]
  {
    hide ToPath;
    assert ToPath(a)[d] == ToPath(a)[..MAX_DEPTH - 1][d];
  }

  /** At depth 63 the other leaf is all that is left. */
  lemma LiftFirst(a: Key, b: Key, ha: Hash, hb: Hash)
    requires ToPath(a)[MAX_DEPTH - 1] != ToPath(b)[MAX_DEPTH - 1] && a != b
    ensures var d := MAX_DEPTH - 1;
            && Lands(None, a, d) && Lands(Some(Insert(None, a, ha, d)), b, d)
            && var t := Insert(Some(Insert(None, a, ha, d)), b, hb, d);
               Lookup(t, b, d).Some? && Remove(t, b, d) == Some(Leaf(a, ha))
  {
    hide ToPath, Collapse;
    var d := MAX_DEPTH - 1;
    var m, n := ToPath(a)[d], ToPath(b)[d];
    var t1 := Insert(None, a, ha, d);
    assert Insert(None, a, ha, d + 1) == Leaf(a, ha);
    assert t1 == Branch(map[m := Leaf(a, ha)]);
    assert Kid(Some(t1), n) == None && Insert(None, b, hb, d + 1) == Leaf(b, hb);
    var t := Insert(Some(t1), b, hb, d);
    assert t == Branch(map[m := Leaf(a, ha)][n := Leaf(b, hb)]);
    assert t.kids - {n} == map[m := Leaf(a, ha)];
    OneKid(m, Leaf(a, ha));
  }

  /** Further up the leaf is an only child. */
  lemma LiftOnce(a: Key, b: Key, ha: Hash, hb: Hash, d: nat)
    requires d < MAX_DEPTH - 1 && ToPath(a)[d] == ToPath(b)[d]
    requires Lands(None, a, d + 1) && Lands(Some(Insert(None, a, ha, d + 1)), b, d + 1)
    requires var t := Insert(Some(Insert(None, a, ha, d + 1)), b, hb, d + 1);
             Lookup(t, b, d + 1).Some? && Remove(t, b, d + 1) == Some(Leaf(a, ha))
    ensures Lands(None, a, d) && Lands(Some(Insert(None, a, ha, d)), b, d)
    ensures var t := Insert(Some(Insert(None, a, ha, d)), b, hb, d);
            Lookup(t, b, d).Some? && Remove(t, b, d) == Some(Leaf(a, ha))
  {
    hide ToPath, Collapse;
    var n := ToPath(a)[d];
    var t1 := Insert(None, a, ha, d);
    assert t1 == Branch(map[n := Insert(None, a, ha, d + 1)]);
    var kid := Insert(Some(Insert(None, a, ha, d + 1)), b, hb, d + 1);
    assert Insert(Some(t1), b, hb, d) == Branch(t1.kids[n := kid]);
    assert t1.kids[n := kid][n := Leaf(a, ha)] == map[n := Leaf(a, ha)];
    OneKid(n, Leaf(a, ha));
  }

  lemma OneKid(n: Nibble, t: Tree)
    requires t.Leaf?
    ensures Collapse(map[n := t]) == Some(t)
  {
    assert map[n := t].Keys == {n};
    assert |map[n := t]| == |map[n := t].Keys|;
  }

  lemma TwinsPart(a: Key, b: Key)
    requires a != b && Alike(a, b)
    ensures ToPath(a)[MAX_DEPTH - 1] != ToPath(b)[MAX_DEPTH - 1]
  {
    hide ToPath;
    var p, q := ToPath(a), ToPath(b);
    if p[MAX_DEPTH - 1] == q[MAX_DEPTH - 1] {
      assert p == p[..MAX_DEPTH - 1] + [p[MAX_DEPTH - 1]];
      assert q == q[..MAX_DEPTH - 1] + [q[MAX_DEPTH - 1]];
      ToPathInjective(a, b);
    }
  }

  // ----- When deletion keeps the leaves at depth 64 -----

  /** `k` is one of exactly two keys below its node at depth 63. */
  ghost predicate HasTwin(t: Tree, k: Key, d: nat)
    decreases t
  {
    t.Branch? && d < MAX_DEPTH && ToPath(k)[d] in t.kids &&
    if d == MAX_DEPTH - 1 then |t.kids| == 2 else HasTwin(t.kids[ToPath(k)[d]], k, d + 1)
  }

  /** Deletion lifts a leaf out of depth 64 exactly when the key has one twin. */
  lemma {:induction false} DeleteIsDeep(t: Tree, k: Key, p: Path)
    requires Placed(t, p) && Deep(t, |p|)
    requires Lookup(t, k, |p|).Some?
    ensures (Remove(t, k, |p|).Some? ==> Deep(Remove(t, k, |p|).value, |p|)) <==> !HasTwin(t, k, |p|)
    decreases t
  {
    if t.Branch? {
      var n := ToPath(k)[|p|];
      var q := p + [n];
      DeleteIsDeep(t.kids[n], k, q);
      var kid := Remove(t.kids[n], k, |q|);
      var kids := Replace(t.kids, n, kid);
      assert Remove(t, k, |p|) == Collapse(kids);
      if |p| == MAX_DEPTH - 1 {
        assert forall i | i in t.kids :: t.kids[i].Leaf?;
        assert kids.Keys == t.kids.Keys - {n};
        CollapseOfLeaves(kids, |p|);
      } else {
        assert forall i | i in t.kids :: t.kids[i].Branch?;
        CollapseOfBranches(t.kids, n, kid, |p|);
      }
    }
  }

  lemma CollapseOfLeaves(kids: map<Nibble, Tree>, d: nat)
    requires d == MAX_DEPTH - 1 && forall i | i in kids :: kids[i].Leaf?
    ensures (Collapse(kids).Some? ==> Deep(Collapse(kids).value, d)) <==> |kids| != 1
  {
    assert kids == map[] <==> |kids| == 0;
  }

  lemma CollapseOfBranches(kids: map<Nibble, Tree>, n: Nibble, kid: Option<Tree>, d: nat)
    requires d < MAX_DEPTH - 1 && n in kids
    requires forall i | i in kids :: kids[i].Branch? && Deep(kids[i], d + 1)
    ensures var t := Collapse(Replace(kids, n, kid));
            (t.Some? ==> Deep(t.value, d)) <==> (kid.Some? ==> Deep(kid.value, d + 1))
  {
    var kids' := Replace(kids, n, kid);
    if kid.Some? {
      assert n in kids';
      if |kids'| == 1 {
        Singleton(kids', n);
      }
    }
  }

  /** Twins seen from the contents: one other key agrees with `k` on the first 63 nibbles. */
  ghost predicate TwinIn(keys: set<Key>, k: Key) {
    k in keys && exists k' :: IsOnlyTwin(keys, k, k')
  }

  ghost predicate IsOnlyTwin(keys: set<Key>, k: Key, k': Key) {
    k' in keys && k' != k && Alike(k, k') &&
    forall x :: x in keys && Alike(k, x) ==> x == k || x == k'
  }

  /** The keys agree on their first 63 nibbles. */
  ghost predicate Alike(a: Key, b: Key) {
    ToPath(a)[..MAX_DEPTH - 1] == ToPath(b)[..MAX_DEPTH - 1]
  }

  /** `keys` are the keys of `t` that lie below `p`. */
  ghost predicate KeysBelow(t: Tree, p: Path, keys: set<Key>) {
    forall x :: p <= ToPath(x) ==> (x in keys <==> Lookup(t, x, |p|).Some?)
  }

  /** The shape test and the test on contents agree. */
  lemma {:induction false} TwinAgrees(t: Tree, k: Key, p: Path, keys: set<Key>)
    requires Placed(t, p) && Deep(t, |p|) && |p| < MAX_DEPTH && p <= ToPath(k)
    requires KeysBelow(t, p, keys)
    ensures HasTwin(t, k, |p|) <==> TwinIn(keys, k)
    decreases t
  {
    assert t.Branch?;
    var n := ToPath(k)[|p|];
    if n in t.kids {
      if |p| == MAX_DEPTH - 1 {
        TwinAtBottom(t, k, p, keys);
      } else {
        var q := p + [n];
        forall x | q <= ToPath(x)
          ensures x in keys <==> Lookup(t.kids[n], x, |q|).Some?
        {
          assert ToPath(x)[|p|] == q[|p|] == n;
          assert p <= ToPath(x);
        }
        TwinAgrees(t.kids[n], k, q, keys);
      }
    }
  }

  lemma TwinAtBottom(t: Tree, k: Key, p: Path, keys: set<Key>)
    requires Placed(t, p) && Deep(t, |p|) && |p| == MAX_DEPTH - 1 && p <= ToPath(k)
    requires KeysBelow(t, p, keys)
    requires t.Branch? && ToPath(k)[|p|] in t.kids
    ensures |t.kids| == 2 <==> TwinIn(keys, k)
  {
    if |t.kids| == 2 {
      TwoKidsMakeTwins(t, k, p, keys);
    }
    if TwinIn(keys, k) {
      var k' :| IsOnlyTwin(keys, k, k');
      TwinsMakeTwoKids(t, k, p, keys, k');
    }
  }

  lemma TwoKidsMakeTwins(t: Tree, k: Key, p: Path, keys: set<Key>)
    requires Placed(t, p) && Deep(t, |p|) && |p| == MAX_DEPTH - 1 && p <= ToPath(k)
    requires KeysBelow(t, p, keys)
    requires t.Branch? && ToPath(k)[|p|] in t.kids && |t.kids| == 2
    ensures TwinIn(keys, k)
  {
    var n := ToPath(k)[|p|];
    var n' := OtherKid(t.kids, n);
    var k' := FromPath(p + [n']);
    BottomKids(t, p, keys, k);
    BottomKids(t, p, keys, k');
    AlikeBelow(p, k, k');
    forall x | x in keys && Alike(k, x)
      ensures x == k || x == k'
    {
      OneOfTwo(t, p, keys, k, k', x);
    }
    assert IsOnlyTwin(keys, k, k');
  }

  lemma OneOfTwo(t: Tree, p: Path, keys: set<Key>, k: Key, k': Key, x: Key)
    requires Placed(t, p) && Deep(t, |p|) && |p| == MAX_DEPTH - 1 && p <= ToPath(k) && p <= ToPath(k')
    requires KeysBelow(t, p, keys)
    requires t.Branch? && t.kids.Keys == {ToPath(k)[|p|], ToPath(k')[|p|]}
    requires x in keys && Alike(k, x)
    ensures x == k || x == k'
  {
    AlikeBelow(p, k, x);
    BottomKids(t, p, keys, x);
    if ToPath(x)[|p|] == ToPath(k)[|p|] {
      SameBottom(p, x, k);
    } else {
      SameBottom(p, x, k');
    }
  }

  lemma TwinsMakeTwoKids(t: Tree, k: Key, p: Path, keys: set<Key>, k': Key)
    requires Placed(t, p) && Deep(t, |p|) && |p| == MAX_DEPTH - 1 && p <= ToPath(k)
    requires KeysBelow(t, p, keys)
    requires t.Branch? && ToPath(k)[|p|] in t.kids && IsOnlyTwin(keys, k, k')
    ensures |t.kids| == 2
  {
    var n, n' := ToPath(k)[|p|], ToPath(k')[|p|];
    AlikeBelow(p, k, k');
    BottomKids(t, p, keys, k');
    if n' == n { SameBottom(p, k, k'); }
    forall i | i in t.kids
      ensures i == n || i == n'
    {
      var x := FromPath(p + [i]);
      assert ToPath(x)[|p|] == i;
      AlikeBelow(p, k, x);
      BottomKids(t, p, keys, x);
    }
    assert t.kids.Keys == {n, n'};
  }

  lemma AlikeBelow(p: Path, k: Key, x: Key)
    requires |p| == MAX_DEPTH - 1 && p <= ToPath(k)
    ensures p <= ToPath(x) <==> Alike(k, x)
  {
    assert p == ToPath(k)[..|p|];
  }

  /** Just above the leaves, children and keys correspond. */
  lemma BottomKids(t: Tree, p: Path, keys: set<Key>, x: Key)
    requires Placed(t, p) && Deep(t, |p|) && |p| == MAX_DEPTH - 1 && t.Branch?
    requires KeysBelow(t, p, keys) && p <= ToPath(x)
    ensures x in keys <==> ToPath(x)[|p|] in t.kids
  {
    var n := ToPath(x)[|p|];
    assert x in keys <==> Lookup(t, x, |p|).Some?;
    if n in t.kids {
      BottomLeaf(t, p, n);
      LastNibble(p, ToPath(x));
      ToPathInjective(x, t.kids[n].key);
      assert Lookup(t.kids[n], x, |p| + 1).Some?;
    }
  }

  lemma BottomLeaf(t: Tree, p: Path, n: Nibble)
    requires Placed(t, p) && Deep(t, |p|) && |p| == MAX_DEPTH - 1
    requires t.Branch? && n in t.kids
    ensures t.kids[n].Leaf? && ToPath(t.kids[n].key) == p + [n]
  {
    assert Placed(t.kids[n], p + [n]) && Deep(t.kids[n], |p| + 1);
    FullPrefix(p + [n], ToPath(t.kids[n].key));
  }

  lemma FullPrefix(p: Path, q: Path)
    requires p <= q && |p| == |q|
    ensures p == q
  {
  }

  lemma LastNibble(p: Path, q: Path)
    requires p <= q && |q| == |p| + 1
    ensures q == p + [q[|p|]]
  {
  }

  lemma SameBottom(p: Path, a: Key, b: Key)
    requires |p| == MAX_DEPTH - 1 && p <= ToPath(a) && p <= ToPath(b)
    requires ToPath(a)[|p|] == ToPath(b)[|p|]
    ensures a == b
  {
    LastNibble(p, ToPath(a));
    LastNibble(p, ToPath(b));
    ToPathInjective(a, b);
  }

  lemma OtherKid<T>(kids: map<Nibble, T>, n: Nibble) returns (n': Nibble)
    requires |kids| == 2 && n in kids
    ensures n' in kids && n' != n && kids.Keys == {n, n'}
  {
    var rest := kids.Keys - {n};
    assert |rest| == 1;
    n' :| n' in rest;
    assert |rest - {n'}| == 0;
    assert kids.Keys == {n} + {n'} + (rest - {n'});
  }
}
