/**
 Batch transactions: many operations in one version (pkg/tree/batch_transaction.go).
 */
module Batches {
  import opened Types
  import opened TreeMap
  import opened Contents
  import opened Nodes
  import opened NodeStore
  import opened TreeSteps
  import opened Database
  import opened TreeState
  import Versions
  import L = Ledger

  datatype BatchOp = BatchPut(key: Key, value: Bytes) | BatchDelete(key: Key)

  // ----- What a list of operations means -----

  function ApplyOp(m: Contents, op: BatchOp): Contents {
    match op
    case BatchPut(k, value) => m[k := value]
    case BatchDelete(k) => m - {k}
  }

  /** The operations one after the other. */
  function Applied(m: Contents, q: seq<BatchOp>): Contents {
    if q == [] then m else ApplyOp(Applied(m, q[..|q| - 1]), q[|q| - 1])
  }

  /** The last operation on a key. */
  function LastFor(q: seq<BatchOp>, k: Key): Option<BatchOp> {
    if q == [] then None else if q[|q| - 1].key == k then Some(q[|q| - 1]) else LastFor(q[..|q| - 1], k)
  }

  /** `r` is `m` with the last operation on each key carried out. */
  ghost predicate Overrides(m: Contents, q: seq<BatchOp>, r: Contents) {
    forall k :: At(r, k) == After(LastFor(q, k), At(m, k))
  }

  /** What one operation, if any, makes of the value of its key. */
  function After(op: Option<BatchOp>, before: Option<Bytes>): Option<Bytes> {
    match op
    case None => before
    case Some(BatchPut(_, value)) => Some(value)
    case Some(BatchDelete(_)) => None
  }

  function At(m: Contents, k: Key): Option<Bytes> {
    if k in m then Some(m[k]) else None
  }

  lemma {:induction false} AppliedOverrides(m: Contents, q: seq<BatchOp>)
    ensures Overrides(m, q, Applied(m, q))
  {
    if q != [] {
      AppliedOverrides(m, q[..|q| - 1]);
      var a, b := Applied(m, q[..|q| - 1]), Applied(m, q);
      forall k
        ensures At(b, k) == After(LastFor(q, k), At(m, k))
      {
        assert At(a, k) == After(LastFor(q[..|q| - 1], k), At(m, k));
      }
    }
  }

  lemma SamePoints(a: Contents, b: Contents)
    requires forall k :: At(a, k) == At(b, k)
    ensures a == b
  {
    forall k
      ensures k in a <==> k in b
      ensures k in a ==> a[k] == b[k]
    {
      assert At(a, k) == At(b, k);
    }
  }

  lemma SameOverride(m: Contents, p: seq<BatchOp>, q: seq<BatchOp>)
    requires forall k :: LastFor(p, k) == LastFor(q, k)
    ensures Applied(m, p) == Applied(m, q)
  {
    hide Applied, LastFor, At;
    AppliedOverrides(m, p);
    AppliedOverrides(m, q);
    var a, b := Applied(m, p), Applied(m, q);
    forall k
      ensures At(a, k) == At(b, k)
    {
    }
    SamePoints(a, b);
  }

  ghost predicate Distinct(q: seq<BatchOp>) {
    forall i, j | 0 <= i < j < |q| :: q[i].key != q[j].key
  }

  lemma {:induction false} DistinctLast(q: seq<BatchOp>, k: Key, op: BatchOp)
    requires Distinct(q)
    ensures LastFor(q, k) == Some(op) <==> op in q && op.key == k
  {
    if q != [] {
      var init, last := q[..|q| - 1], q[|q| - 1];
      assert q == init + [last];
      DistinctLast(init, k, op);
    }
  }

  /** Operations on distinct keys may be made in any order. */
  lemma AnyOrder(m: Contents, p: seq<BatchOp>, q: seq<BatchOp>)
    requires Distinct(p) && Distinct(q) && forall op :: op in p <==> op in q
    ensures Applied(m, p) == Applied(m, q)
  {
    forall k
      ensures LastFor(p, k) == LastFor(q, k)
    {
      if LastFor(p, k).Some? {
        DistinctLast(p, k, LastFor(p, k).value);
        DistinctLast(q, k, LastFor(p, k).value);
      } else if LastFor(q, k).Some? {
        DistinctLast(q, k, LastFor(q, k).value);
        DistinctLast(p, k, LastFor(q, k).value);
      }
    }
    SameOverride(m, p, q);
  }

  // ----- Only the last operation on each key -----

  ghost predicate Needed(q: seq<BatchOp>, i: int)
    requires 0 <= i < |q|
  {
    forall j | i < j < |q| :: q[j].key != q[i].key
  }

  ghost function Selected(q: seq<BatchOp>, n: nat): seq<BatchOp>
    requires n <= |q|
  {
    if n == 0 then [] else Selected(q, n - 1) + if Needed(q, n - 1) then [q[n - 1]] else []
  }

  /** The last operation on each key, in their original order. */
  ghost function Latest(q: seq<BatchOp>): seq<BatchOp> {
    Selected(q, |q|)
  }

  /** `op` is the last on its key, among the first `n`. */
  ghost predicate IsLast(q: seq<BatchOp>, n: nat, op: BatchOp)
    requires n <= |q|
  {
    exists i :: 0 <= i < n && q[i] == op && Needed(q, i)
  }

  lemma {:induction false} SelectedFacts(q: seq<BatchOp>, n: nat)
    requires n <= |q|
    ensures Distinct(Selected(q, n))
    ensures forall op :: op in Selected(q, n) <==> IsLast(q, n, op)
  {
    if n > 0 {
      hide Needed, IsLast;
      SelectedFacts(q, n - 1);
      var s := Selected(q, n - 1);
      forall op
        ensures op in Selected(q, n) <==> IsLast(q, n, op)
      {
        LastStep(q, n, op);
      }
      forall i | 0 <= i < |s| && Needed(q, n - 1)
        ensures s[i].key != q[n - 1].key
      {
        assert s[i] in s;
        LastDiffers(q, n - 1, s[i]);
      }
    }
  }

  lemma LastStep(q: seq<BatchOp>, n: nat, op: BatchOp)
    requires 0 < n <= |q|
    ensures IsLast(q, n, op) <==> IsLast(q, n - 1, op) || (op == q[n - 1] && Needed(q, n - 1))
  {
    hide Needed;
  }

  lemma LastDiffers(q: seq<BatchOp>, n: nat, op: BatchOp)
    requires n < |q| && IsLast(q, n, op)
    ensures op.key != q[n].key
  {
    hide Needed;
    var j :| 0 <= j < n && q[j] == op && Needed(q, j);
    NeededDiffers(q, j, n);
  }

  lemma NeededDiffers(q: seq<BatchOp>, i: nat, j: nat)
    requires i < j < |q| && Needed(q, i)
    ensures q[i].key != q[j].key
  {
  }

  lemma {:induction false} LastIsNeeded(q: seq<BatchOp>, n: nat, k: Key)
    requires n <= |q| && forall j | n <= j < |q| :: q[j].key != k
    ensures LastFor(q[..n], k).Some? ==>
        exists i :: 0 <= i < n && q[i] == LastFor(q[..n], k).value && q[i].key == k && Needed(q, i)
    ensures LastFor(q[..n], k).None? ==> forall i | 0 <= i < n :: q[i].key != k
  {
    if n > 0 {
      assert q[..n][..n - 1] == q[..n - 1];
      if q[n - 1].key != k {
        LastIsNeeded(q, n - 1, k);
      } else {
        assert Needed(q, n - 1);
      }
    }
  }

  /** Dropping all but the last operation on each key changes no key's last operation. */
  lemma LatestKeepsLast(q: seq<BatchOp>, k: Key)
    ensures LastFor(Latest(q), k) == LastFor(q, k)
  {
    hide Needed;
    SelectedFacts(q, |q|);
    LastIsNeeded(q, |q|, k);
    assert q[..|q|] == q;
    var l := Latest(q);
    if LastFor(q, k).Some? {
      DistinctLast(l, k, LastFor(q, k).value);
    } else if LastFor(l, k).Some? {
      DistinctLast(l, k, LastFor(l, k).value);
    }
  }

  /** The deduplicated batch does what the whole batch would do, on every map. */
  lemma LatestMeansTheSame(m: Contents, q: seq<BatchOp>)
    ensures Distinct(Latest(q)) && Applied(m, Latest(q)) == Applied(m, q)
  {
    hide Latest;
    assert Distinct(Latest(q)) by { LatestDistinct(q); }
    forall k
      ensures LastFor(Latest(q), k) == LastFor(q, k)
    {
      LatestKeepsLast(q, k);
    }
    SameOverride(m, Latest(q), q);
  }

  lemma LatestDistinct(q: seq<BatchOp>)
    ensures Distinct(Latest(q))
  {
    SelectedFacts(q, |q|);
  }

  /** Every operation can be carried out on `m`: values fit and deleted keys are there. */
  ghost predicate Executable(m: Contents, q: seq<BatchOp>) {
    forall op | op in q :: OpFits(m, op)
  }

  predicate OpFits(m: Contents, op: BatchOp) {
    match op
    case BatchPut(_, value) => L.StorableValue(value)
    case BatchDelete(k) => k in m
  }

  /** With distinct keys, what an operation finds is what was there before the batch. */
  lemma {:induction false} OthersUntouched(m: Contents, q: seq<BatchOp>, k: Key)
    requires forall i | 0 <= i < |q| :: q[i].key != k
    ensures k in Applied(m, q) <==> k in m
  {
    if q != [] {
      OthersUntouched(m, q[..|q| - 1], k);
    }
  }

  lemma FitsAsBefore(m: Contents, q: seq<BatchOp>, i: nat)
    requires Distinct(q) && i < |q|
    ensures OpFits(Applied(m, q[..i]), q[i]) <==> OpFits(m, q[i])
  {
    OthersUntouched(m, q[..i], q[i].key);
  }

  lemma OneMore(m: Contents, q: seq<BatchOp>, i: nat)
    requires i < |q|
    ensures Applied(m, q[..i + 1]) == ApplyOp(Applied(m, q[..i]), q[i])
  {
    assert q[..i + 1][..i] == q[..i];
  }

  lemma KeysStay(m: Contents, op: BatchOp, keys: set<Key>)
    requires m.Keys <= keys && (op.BatchPut? ==> op.key in keys)
    ensures ApplyOp(m, op).Keys <= keys
  {
  }

  /** The keys of the newest version and those the batch puts. */
  ghost function BatchKeys(present: set<Key>, q: seq<BatchOp>): set<Key> {
    present + set op | op in q && op.BatchPut? :: op.key
  }

  /** No deleted key agrees on 63 nibbles with another key of the batch or of the newest version. */
  ghost predicate TameBatch(l: L.Ledger, q: seq<BatchOp>) {
    L.TopDeep(l) && forall op | op in q && op.BatchDelete? ::
      L.Alone(op.key, BatchKeys(l.committed[l.top].contents.Keys, q))
  }

  // ----- The batch as a version -----

  /** The ledger while a batch is being carried out: like `l`, with one more draft. */
  ghost predicate InBatch(l: L.Ledger, m: L.Ledger, v: Version, d: L.Draft) {
    l.latest < MAX_VERSION && v == l.latest + 1 && l.puts <= m.puts &&
    m == l.(latest := v, drafts := l.drafts[v := d], puts := m.puts)
  }

  /** The maps that the first `n` operations make, one after the other. */
  ghost function MapsAlong(m: Contents, q: seq<BatchOp>, n: nat): set<Contents>
    requires n <= |q|
  {
    set i | 0 < i <= n :: Applied(m, q[..i])
  }

  lemma OneMoreMap(m: Contents, q: seq<BatchOp>, n: nat)
    requires n < |q|
    ensures MapsAlong(m, q, n + 1) == MapsAlong(m, q, n) + {Applied(m, q[..n + 1])}
  {
    hide Applied;
  }

  /** The draft of a batch after `n` operations. */
  ghost predicate BatchDraft(l: L.Ledger, d: L.Draft, q: seq<BatchOp>, n: nat) {
    l.top in l.committed && n <= |q| &&
    var m := l.committed[l.top].contents;
    d == L.Draft(l.top, Applied(m, q[..n]), true, n, MapsAlong(m, q, n), d.touched) && (n > 0 ==> d.touched)
  }

  /** Every string hashed for the maps that a batch makes. */
  ghost function BatchStrings(H: Hasher, l: L.Ledger, ops: seq<BatchOp>): set<Bytes> {
    if l.top !in l.committed then {}
    else StringsOf(H, MapsAlong(l.committed[l.top].contents, Latest(ops), |Latest(ops)|))
  }

  ghost function OpStep(v: Version, op: BatchOp): L.Step {
    match op
    case BatchPut(k, value) => L.Put(v, k, value)
    case BatchDelete(k) => L.Delete(v, k)
  }

  lemma BatchOpened(l: L.Ledger, q: seq<BatchOp>)
    requires L.TopDeep(l)
    ensures BatchDraft(l, L.Opened(l), q, 0)
    ensures Applied(l.committed[l.top].contents, q[..0]) == l.committed[l.top].contents
  {
    assert MapsAlong(l.committed[l.top].contents, q, 0) == {};
  }

  lemma BatchBegins(l: L.Ledger, m: L.Ledger)
    requires l.top in l.committed && l.latest < MAX_VERSION && m == L.Next(l, L.Begin)
    ensures InBatch(l, m, l.latest + 1, L.Opened(l))
  {
  }

  lemma BatchGoesOn(l: L.Ledger, m: L.Ledger, v: Version, d: L.Draft, q: seq<BatchOp>, n: nat, m': L.Ledger,
                    keys: set<Key>)
    requires n < |q| && InBatch(l, m, v, d) && BatchDraft(l, d, q, n) && m' == L.Next(m, OpStep(v, q[n]))
    requires q[n].key != ZERO_KEY && OpFits(d.contents, q[n])
    requires d.contents.Keys <= keys && (q[n].BatchDelete? ==> L.Alone(q[n].key, keys))
    ensures var d' := L.Apply(d, OpStep(v, q[n])); InBatch(l, m', v, d') && BatchDraft(l, d', q, n + 1)
  {
    hide L.Alone, TwinIn, Applied, MapsAlong;
    if q[n].BatchDelete? { L.AloneHasNoTwin(keys, d.contents.Keys, q[n].key); }
    OneMore(l.committed[l.top].contents, q, n);
    OneMoreMap(l.committed[l.top].contents, q, n);
  }

  /** What a refused operation leaves of the draft. */
  ghost function Refused(d: L.Draft, op: BatchOp): L.Draft {
    if op.BatchDelete? then d.(touched := true) else d
  }

  lemma BatchRefused(l: L.Ledger, m: L.Ledger, v: Version, d: L.Draft, q: seq<BatchOp>, n: nat)
    requires n < |q| && InBatch(l, m, v, d) && BatchDraft(l, d, q, n) && q[n].key != ZERO_KEY
    ensures (if q[n].BatchPut? then L.CanPut(m, v, q[n].key, q[n].value) else L.CanDelete(m, v, q[n].key)) <==>
        OpFits(d.contents, q[n])
    ensures !OpFits(d.contents, q[n]) ==>
              InBatch(l, L.Next(m, OpStep(v, q[n])), v, Refused(d, q[n])) && BatchDraft(l, Refused(d, q[n]), q, n)
    ensures v in m.drafts && m.drafts[v].deep && d.contents == Applied(l.committed[l.top].contents, q[..n])
  {
    hide Applied, MapsAlong;
  }

  /** When a batch succeeds. */
  ghost predicate BatchPossible(l: L.Ledger, ops: seq<BatchOp>) {
    ops != [] && l.latest < MAX_VERSION && l.top in l.committed && Executable(l.committed[l.top].contents, Latest(ops))
  }

  /** A batch that succeeds adds one version over the newest one: the map that was there, after all the operations. */
  ghost predicate BatchCommitted(l: L.Ledger, m: L.Ledger, ops: seq<BatchOp>) {
    && l.latest < MAX_VERSION && l.top in l.committed && m.latest == m.top == l.latest + 1 && m.drafts == l.drafts &&
         m.aborted == l.aborted
    && m.top in m.committed && m.committed[m.top].parent == l.top && m.committed[m.top].deep
    && m.committed[m.top].contents == Applied(l.committed[l.top].contents, ops)
    && m.committed - {m.top} == l.committed && m.live == l.live + {m.top}
    && m.hashOf == l.hashOf[m.top := m.top] && m.stored == l.stored + {m.top}
  }

  /**
   A batch that fails changes no version.  It uses up exactly one number, or none if it is empty or
   no number is left.
   */
  ghost predicate BatchFailed(l: L.Ledger, m: L.Ledger, ops: seq<BatchOp>) {
    && m.committed == l.committed && m.live == l.live && m.top == l.top && m.drafts == l.drafts
    && m.hashOf == l.hashOf && m.stored == l.stored
    && if ops == [] || l.latest == MAX_VERSION then m == l
       else m.latest == l.latest + 1 && m.aborted == l.aborted + {m.latest}
  }

  lemma BatchEnds(H: Hasher, l: L.Ledger, m: L.Ledger, v: Version, d: L.Draft, n: nat, ops: seq<BatchOp>)
    requires L.Wellformed(l) && InBatch(l, m, v, d) && BatchDraft(l, d, Latest(ops), n)
    ensures v in m.drafts && (ops != [] ==> BatchFailed(l, L.Next(m, L.Abort(v)), ops))
    ensures n == |Latest(ops)| > 0 ==>
              L.Next(m, L.Commit(v)).top == v && BatchCommitted(l, L.Next(m, L.Commit(v)), ops)
    ensures n == |Latest(ops)| > 0 && CollisionFree(H, BatchStrings(H, l, ops)) ==> Sure(H, m.drafts[v])
  {
    hide L.ParentsOk, L.ValuesOk, L.HashesOk, Latest, Applied, Distinct, StringsOf, CollisionFree, MapsAlong;
    BatchGivesUp(l, m, v, d, ops);
    if n == |Latest(ops)| > 0 {
      LatestMeansTheSame(l.committed[l.top].contents, ops);
      assert Latest(ops)[..|Latest(ops)|] == Latest(ops);
    }
  }

  lemma BatchGivesUp(l: L.Ledger, m: L.Ledger, v: Version, d: L.Draft, ops: seq<BatchOp>)
    requires L.NumbersOk(l) && InBatch(l, m, v, d)
    ensures v in m.drafts && (ops != [] ==> BatchFailed(l, L.Next(m, L.Abort(v)), ops))
  {
    assert v !in l.drafts;
    assert m.drafts - {v} == l.drafts;
  }

  // ----- The transaction -----

  /** `keyOps` holds the index of the last operation on each key. */
  ghost predicate Tracked(operations: seq<BatchOp>, keyOps: map<Key, nat>) {
    (forall k | k in keyOps ::
      keyOps[k] < |operations| && operations[keyOps[k]].key == k && Needed(operations, keyOps[k])) &&
    (forall i | 0 <= i < |operations| :: operations[i].key in keyOps && operations[i].key != ZERO_KEY)
  }

  lemma TrackMore(operations: seq<BatchOp>, keyOps: map<Key, nat>, op: BatchOp)
    requires Tracked(operations, keyOps) && op.key != ZERO_KEY
    ensures Tracked(operations + [op], keyOps[op.key := |operations|])
  {
  }

  /** An operation is its key's last exactly when its index is tracked. */
  lemma NeededIsTracked(operations: seq<BatchOp>, keyOps: map<Key, nat>, i: nat)
    requires Tracked(operations, keyOps) && i < |operations|
    ensures Needed(operations, i) <==> i in keyOps.Values
  {
    var k := operations[i].key;
    assert keyOps[k] in keyOps.Values && operations[keyOps[k]].key == k;
  }

  class BatchTransaction {
    const tree: VersionedTree
    var operations: seq<BatchOp>
    var keyOps: map<Key, nat>

    ghost predicate Valid()
      reads this
    {
      Tracked(operations, keyOps)
    }

    constructor (tree: VersionedTree)
      ensures Valid() && this.tree == tree && operations == []
    {
      this.tree, operations, keyOps := tree, [], map[];
    }

    /** Add a put; only a zero key or a missing value is refused here. */
    method BatchPut(key: Key, value: Option<Bytes>) returns (ok: bool)
      requires Valid()
      modifies this
      ensures Valid() && ok == (key != ZERO_KEY && value.Some?)
      ensures operations == if ok then old(operations) + [BatchOp.BatchPut(key, value.value)] else old(operations)
    {
      if key == ZERO_KEY || value.None? { return false; }
      TrackMore(operations, keyOps, BatchOp.BatchPut(key, value.value));
      keyOps := keyOps[key := |operations|];
      operations := operations + [BatchOp.BatchPut(key, value.value)];
      return true;
    }

    method BatchDelete(key: Key) returns (ok: bool)
      requires Valid()
      modifies this
      ensures Valid() && ok == (key != ZERO_KEY)
      ensures operations == if ok then old(operations) + [BatchOp.BatchDelete(key)] else old(operations)
    {
      if key == ZERO_KEY { return false; }
      TrackMore(operations, keyOps, BatchOp.BatchDelete(key));
      keyOps := keyOps[key := |operations|];
      operations := operations + [BatchOp.BatchDelete(key)];
      return true;
    }

    /** The last operation on each key, in the order in which they were added. */
    method OptimizeOperations() returns (optimized: seq<BatchOp>)
      requires Valid()
      ensures optimized == Latest(operations)
    {
      hide Needed, Tracked;
      optimized := [];
      var needed := keyOps.Values;
      for i := 0 to |operations|
        invariant optimized == Selected(operations, i)
      {
        NeededIsTracked(operations, keyOps, i);
        if i in needed {
          optimized := optimized + [operations[i]];
        }
      }
    }

    /** Carry out the batch as one version. */
    method Execute() returns (r: Option<Version>)
      requires Valid() && tree.Valid() && TameBatch(tree.Ledger(), Latest(operations))
      modifies this, tree, tree.vm`pending, tree.vm`versions, tree.vm`latestVersion, tree.vm`committedVersion,
        tree.source
      ensures Valid() && tree.Valid()
      ensures operations == if r.Some? then [] else old(operations)
      ensures r.Some? ==>
          BatchCommitted(old(tree.Ledger()), tree.Ledger(), old(operations)) && r.value == tree.Ledger().top
      ensures r.Some? ==> BatchPossible(old(tree.Ledger()), old(operations))
      ensures r.None? ==> BatchFailed(old(tree.Ledger()), tree.Ledger(), old(operations))
      ensures CollisionFree(tree.H, BatchStrings(tree.H, old(tree.Ledger()), old(operations))) ==>
                (r.Some? <==> BatchPossible(old(tree.Ledger()), old(operations)))
    {
      hide StateOk, NodeSource.Sound, CollisionFree, Latest, L.Next, TameBatch, Lifted, Tracked, BatchCommitted,
        Executable, InBatch, BatchDraft, BatchFailed, Applied, StateOf, Distinct, VersionedTree.Valid,
        VersionedTree.Now,
        L.Wellformed, L.Opened, BatchStrings, Sure;
      var optimized := OptimizeOperations();
      ghost var l := tree.Ledger();
      LatestDistinct(operations);
      LatestKeys(operations, keyOps);
      TreeFacts(tree);
      NothingFailed(l, operations);
      if |optimized| == 0 { return None; }
      var v := tree.BeginVersion();
      if v.None? { return None; }
      BatchBegins(l, tree.Ledger());
      var ok;
      ghost var d, n;
      ok, d, n := ExecuteOps(tree, v.value, optimized, l);
      BatchEnds(tree.H, l, tree.Ledger(), v.value, d, n, operations);
      if ok { ok := tree.CommitAfter(v.value); }
      if !ok {
        var _ := tree.AbortVersion(v.value);
        return None;
      }
      operations, keyOps := [], map[];
      NothingTracked();
      return v;
    }
  }

  lemma TreeFacts(tree: VersionedTree)
    requires tree.Valid()
    ensures L.Wellformed(tree.Ledger()) && tree.Ledger().top in tree.Ledger().committed
  {
    hide L.ParentsOk, L.ValuesOk, StoreOk, AllVersions, AllDrafts, IndexOk, RootsOk, Versions.ManagerOk,
      ManagerMatches, NodeSource.Sound;
  }

  lemma NothingFailed(l: L.Ledger, ops: seq<BatchOp>)
    requires L.Wellformed(l)
    ensures ops == [] || l.latest >= MAX_VERSION ==> BatchFailed(l, l, ops)
  {
  }

  lemma NothingTracked()
    ensures Tracked([], map[])
  {
  }

  lemma LatestKeys(operations: seq<BatchOp>, keyOps: map<Key, nat>)
    requires Tracked(operations, keyOps)
    ensures forall op | op in Latest(operations) :: op.key != ZERO_KEY
    ensures Latest(operations) == [] <==> operations == []
  {
    hide Needed;
    SelectedFacts(operations, |operations|);
    if operations != [] {
      LastNeeded(operations);
    }
  }

  lemma LastNeeded(q: seq<BatchOp>)
    requires q != []
    ensures Needed(q, |q| - 1)
  {
  }

  /** One operation of a batch, in a version that is not committed yet. */
  method ExecuteOp(tree: VersionedTree, v: Version, op: BatchOp) returns (ok: bool)
    requires tree.Valid() && v in tree.Ledger().drafts && tree.Ledger().drafts[v].deep
    modifies tree`meaning, tree.vm`pending, tree.source`entries, tree.source`hits, tree.source`misses
    ensures tree.Valid() && tree.Ledger() == L.Next(old(tree.Ledger()), OpStep(v, op))
    ensures ok <==>
        if op.BatchPut? then L.CanPut(old(tree.Ledger()), v, op.key, op.value)
          else L.CanDelete(old(tree.Ledger()), v, op.key)
  {
    hide StateOk, NodeSource.Sound, L.Next, Lifted, Lands, StateOf;
    if op.BatchPut? {
      DeepLands(tree.H, tree.Now(), tree.meaning, v, op.key);
      ok := tree.PutVersioned(v, op.key, op.value);
    } else {
      ok := tree.DeleteVersioned(v, op.key);
    }
  }

  /** The operations of a batch on distinct keys; stops at the first that fails. */
  method ExecuteOps(tree: VersionedTree, v: Version, q: seq<BatchOp>, ghost l: L.Ledger)
    returns (ok: bool, ghost d: L.Draft, ghost n: nat)
    requires tree.Valid() && Distinct(q) && (forall op | op in q :: op.key != ZERO_KEY)
    requires TameBatch(l, q) && InBatch(l, tree.Ledger(), v, L.Opened(l))
    modifies tree`meaning, tree.vm`pending, tree.source`entries, tree.source`hits, tree.source`misses
    ensures tree.Valid() && InBatch(l, tree.Ledger(), v, d) && BatchDraft(l, d, q, n)
    ensures ok <==> Executable(l.committed[l.top].contents, q)
    ensures ok ==> n == |q|
  {
    hide StateOk, NodeSource.Sound, L.Next, L.Apply, Applied, InBatch, BatchDraft, L.Alone, VersionedTree.Valid, OpFits;
    ghost var m := l.committed[l.top].contents;
    ghost var keys := BatchKeys(m.Keys, q);
    d, n := L.Opened(l), 0;
    BatchOpened(l, q);
    var i := 0;
    while i < |q|
      invariant 0 <= i <= |q| && n == i
      invariant tree.Valid() && InBatch(l, tree.Ledger(), v, d) && BatchDraft(l, d, q, i)
      invariant Applied(m, q[..i]).Keys <= keys
      invariant forall j | 0 <= j < i :: OpFits(m, q[j])
    {
      ghost var before := tree.Ledger();
      assert q[i] in q;
      FitsAsBefore(m, q, i);
      BatchRefused(l, before, v, d, q, i);
      ok := ExecuteOp(tree, v, q[i]);
      if !ok {
        d := Refused(d, q[i]);
        return;
      }
      BatchGoesOn(l, before, v, d, q, i, tree.Ledger(), keys);
      OneMore(m, q, i);
      KeysStay(Applied(m, q[..i]), q[i], keys);
      d, n := L.Apply(d, OpStep(v, q[i])), i + 1;
      i := i + 1;
    }
    return true, d, n;
  }
}
