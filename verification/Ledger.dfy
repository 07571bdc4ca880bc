/**
 The abstract machine that the versioned tree implements: every version is a plain map, built in
 a draft over its parent's map and fixed by its commit (README.md, pkg/tree/tree.go).

 Three facts about the code are part of the machine.  A version committed without a successful
 operation stores no root node, so it reads as empty; the root hash recorded for it is the one its
 parent has.  A version in which no operation was tried leaves nothing in storage, and one in which
 a delete was refused over an empty parent cannot be committed.  And deleting one of two keys that
 agree on their first 63 nibbles lifts a leaf; versions that did so, and their descendants, are not
 `deep`.
 */
module Ledger {
  import opened Types
  import opened Contents
  import opened TreeMap

  /**
   A version under construction; `past` holds every map that its operations have made, and `touched`
   says that an operation was tried, successful or not.
   */
  datatype Draft = Draft(parent: Version, contents: Contents, deep: bool, ops: nat, past: set<Contents>, touched: bool)

  datatype Entry = Entry(parent: Version, contents: Contents, deep: bool, ops: nat)

  datatype Ledger = Ledger(
    latest: Version,
    top: Version,
    drafts: map<Version, Draft>,
    committed: map<Version, Entry>,
    live: set<Version>,
    aborted: set<Version>,
    puts: set<Bytes>,
    hashOf: map<Version, Version>,   // the version whose tree has the root hash recorded for a version; 0 for none
    stored: set<Version>)            // the versions whose root hash is in storage

  datatype Step =
    | Begin
    | Put(v: Version, key: Key, value: Bytes)
    | Delete(v: Version, key: Key)
    | Commit(v: Version)
    | Abort(v: Version)
    | Collect(gone: set<Version>)

  const INITIAL := Ledger(0, 0, map[], map[0 := Entry(0, map[], true, 0)], {0}, {}, {}, map[0 := 0], {})

  predicate StorableValue(value: Bytes) {
    0 < |value| <= 1_048_576
  }

  predicate CanPut(l: Ledger, v: Version, key: Key, value: Bytes) {
    v in l.drafts && v <= MAX_VERSION && key != ZERO_KEY && StorableValue(value)
  }

  predicate CanDelete(l: Ledger, v: Version, key: Key) {
    v in l.drafts && v <= MAX_VERSION && key != ZERO_KEY && key in l.drafts[v].contents
  }

  /** A commit goes through unless an updater was made over an empty parent and has changed nothing. */
  predicate CanSeal(d: Draft) {
    d.ops > 0 || !d.touched || d.parent == 0 || d.contents != map[]
  }

  /** The version whose tree has the root hash that the commit of a draft records. */
  function HashSource(l: Ledger, v: Version, d: Draft): Version {
    if d.ops > 0 then v
    else if (d.touched || d.parent in l.live) && d.parent in l.hashOf then l.hashOf[d.parent]
    else 0
  }

  /** What a commit makes of a draft. */
  function Sealed(d: Draft): Entry {
    Entry(d.parent, if d.ops == 0 then map[] else d.contents, d.ops == 0 || d.deep, d.ops)
  }

  /** A draft after one successful operation. */
  ghost function Apply(d: Draft, s: Step): Draft
    requires s.Put? || s.Delete?
  {
    match s
    case Put(_, k, value) =>
      var m := d.contents[k := value];
      d.(contents := m, ops := d.ops + 1, past := d.past + {m}, touched := true)
    case Delete(_, k) =>
      var m := d.contents - {k};
      d.(contents := m, deep := d.deep && !TwinIn(d.contents.Keys, k), ops := d.ops + 1, past := d.past + {m},
         touched := true)
  }

  /** One atomic step; a step that is refused changes nothing, but a refused delete leaves its trace in the draft. */
  ghost function Next(l: Ledger, s: Step): Ledger {
    match s
    case Begin =>
      if l.latest < MAX_VERSION && l.top in l.committed then
        var base := l.committed[l.top];
        l.(latest := l.latest + 1,
           drafts := l.drafts[l.latest + 1 := Draft(l.top, base.contents, base.deep, 0, {}, false)])
      else l
    case Put(v, k, value) =>
      if CanPut(l, v, k, value) then l.(drafts := l.drafts[v := Apply(l.drafts[v], s)], puts := l.puts + {value}) else l
    case Delete(v, k) =>
      if CanDelete(l, v, k) then l.(drafts := l.drafts[v := Apply(l.drafts[v], s)])
      else if v in l.drafts && v <= MAX_VERSION && k != ZERO_KEY then
        l.(drafts := l.drafts[v := l.drafts[v].(touched := true)])
      else l
    case Commit(v) =>
      if v in l.drafts && CanSeal(l.drafts[v]) then
        var d := l.drafts[v];
        l.(drafts := l.drafts - {v}, committed := l.committed[v := Sealed(d)], live := l.live + {v},
           top := (if v > l.top then v else l.top), hashOf := l.hashOf[v := HashSource(l, v, d)],
           stored := if d.touched then l.stored + {v} else l.stored)
      else l
    case Abort(v) =>
      if v in l.drafts then l.(drafts := l.drafts - {v}, aborted := l.aborted + {v}) else l
    case Collect(gone) =>
      l.(live := l.live - (gone - {0, l.top}))
  }

  ghost function Run(l: Ledger, steps: seq<Step>): Ledger
    decreases |steps|
  {
    if steps == [] then l else Run(Next(l, steps[0]), steps[1..])
  }

  // ----- Invariant of every reachable state -----

  /** Version numbers: each in one place, none above the latest; the top is the newest committed version. */
  ghost predicate NumbersOk(l: Ledger) {
    l.latest <= MAX_VERSION &&
    l.drafts.Keys !! l.committed.Keys && l.drafts.Keys !! l.aborted && l.committed.Keys !! l.aborted &&
    0 in l.live && l.top in l.live && l.live <= l.committed.Keys &&
    (forall v | v in l.committed :: v <= l.top) &&
    (forall v | v in l.drafts || v in l.committed || v in l.aborted :: v <= l.latest)
  }

  /** `parent` may be the parent of `v`: it is committed and older, except that 0 is its own parent. */
  ghost predicate ParentOf(parent: Version, v: Version, committed: set<Version>) {
    parent in committed && (v == 0 || parent < v)
  }

  /** Parents are committed before their children begin. */
  ghost predicate ParentsOk(l: Ledger) {
    (forall v | v in l.drafts :: ParentOf(l.drafts[v].parent, v, l.committed.Keys)) &&
    (forall v | v in l.committed :: ParentOf(l.committed[v].parent, v, l.committed.Keys))
  }

  /**
   Every value in a version was put there by an accepted put; no version holds the zero key; one
   without operations is empty.
   */
  ghost predicate ValuesOk(l: Ledger) {
    (forall v | v in l.drafts :: FromPuts(l.drafts[v].contents, l.puts)) &&
    (forall v | v in l.committed ::
      && FromPuts(l.committed[v].contents, l.puts)
      && (l.committed[v].ops == 0 ==> l.committed[v].contents == map[]))
  }

  ghost predicate FromPuts(m: Contents, puts: set<Bytes>) {
    forall k | k in m :: k != ZERO_KEY && m[k] in puts && StorableValue(m[k])
  }

  /**
   Root hashes are those of trees with operations, or of none; a version with operations has its own
   and is in storage.
   */
  ghost predicate HashesOk(l: Ledger) {
    l.hashOf.Keys == l.committed.Keys && l.stored <= l.committed.Keys - {0} && (0 in l.hashOf ==> l.hashOf[0] == 0) &&
    (forall v | v in l.committed :: HashOk(l.hashOf[v], v, l.committed)) &&
    (forall v | v in l.committed && l.committed[v].ops > 0 :: v in l.stored) &&
    (forall v | v in l.drafts && l.drafts[v].ops > 0 :: l.drafts[v].touched)
  }

  ghost predicate HashOk(w: Version, v: Version, committed: map<Version, Entry>)
    requires v in committed
  {
    w in committed && (committed[w].ops > 0 || w == 0) && (committed[v].ops > 0 ==> w == v)
  }

  ghost predicate Wellformed(l: Ledger) {
    NumbersOk(l) && ParentsOk(l) && ValuesOk(l) && HashesOk(l)
  }

  lemma InitialWellformed()
    ensures Wellformed(INITIAL)
  {
  }

  lemma OwnHash(l: Ledger, v: Version)
    requires Wellformed(l) && v in l.committed && l.committed[v].ops > 0
    ensures v in l.hashOf && l.hashOf[v] == v
  {
    hide NumbersOk, ParentsOk, ValuesOk;
    assert HashOk(l.hashOf[v], v, l.committed);
  }

  lemma NextPut(l: Ledger, v: Version, k: Key, value: Bytes)
    ensures Next(l, Put(v, k, value)) ==
            if CanPut(l, v, k, value)
            then l.(drafts := l.drafts[v := Apply(l.drafts[v], Put(v, k, value))], puts := l.puts + {value}) else l
  {
  }

  lemma NextNumbers(l: Ledger, s: Step)
    requires NumbersOk(l)
    ensures NumbersOk(Next(l, s))
  {
    hide TwinIn, Sealed;
  }

  lemma NextParents(l: Ledger, s: Step)
    requires l.top <= l.latest && l.top in l.committed && l.drafts.Keys !! l.committed.Keys && ParentsOk(l)
    ensures ParentsOk(Next(l, s))
  {
    hide TwinIn, ParentOf, CanSeal, HashSource, StorableValue;
    var l' := Next(l, s);
    forall p: Version, v: Version | ParentOf(p, v, l.committed.Keys)
      ensures ParentOf(p, v, l'.committed.Keys)
    {
      ParentStays(p, v, l.committed.Keys, l'.committed.Keys);
    }
    if s == Begin && l' != l {
      NewParent(l.top, l'.latest, l.committed.Keys);
    }
  }

  lemma ParentStays(p: Version, v: Version, a: set<Version>, b: set<Version>)
    requires ParentOf(p, v, a) && a <= b
    ensures ParentOf(p, v, b)
  {
  }

  lemma NewParent(p: Version, v: Version, a: set<Version>)
    requires p in a && p < v
    ensures ParentOf(p, v, a)
  {
  }

  lemma NextValues(l: Ledger, s: Step)
    requires ValuesOk(l)
    ensures ValuesOk(Next(l, s))
  {
    hide TwinIn, HashSource, CanSeal, StorableValue;
  }

  lemma NextHashes(l: Ledger, s: Step)
    requires HashesOk(l) && 0 in l.committed && l.drafts.Keys !! l.committed.Keys
    ensures HashesOk(Next(l, s))
  {
    hide HashesOk, Next;
    if s.Commit? { CommitHashes(l, s.v); } else { OtherHashes(l, s); }
  }

  lemma OtherHashes(l: Ledger, s: Step)
    requires HashesOk(l) && !s.Commit?
    ensures HashesOk(Next(l, s))
  {
    hide TwinIn, HashOk, StorableValue;
  }

  lemma CommitHashes(l: Ledger, v: Version)
    requires HashesOk(l) && 0 in l.committed && l.drafts.Keys !! l.committed.Keys
    ensures HashesOk(Next(l, Commit(v)))
  {
    hide HashOk, CanSeal, HashSource;
    var m := Next(l, Commit(v));
    if m != l {
      forall u | u in l.committed
        ensures HashOk(m.hashOf[u], u, m.committed)
      {
        HashStays(l.hashOf[u], u, l.committed, m.committed);
      }
      NewHash(l, v, l.drafts[v]);
    }
  }

  lemma HashStays(w: Version, v: Version, a: map<Version, Entry>, b: map<Version, Entry>)
    requires v in a && HashOk(w, v, a) && forall u | u in a :: u in b && b[u] == a[u]
    ensures HashOk(w, v, b)
  {
  }

  lemma NewHash(l: Ledger, v: Version, d: Draft)
    requires HashesOk(l) && 0 in l.committed && v !in l.committed
    ensures HashOk(HashSource(l, v, d), v, l.committed[v := Sealed(d)])
  {
    if d.parent in l.hashOf { assert HashOk(l.hashOf[d.parent], d.parent, l.committed); }
  }

  lemma NextWellformed(l: Ledger, s: Step)
    requires Wellformed(l)
    ensures Wellformed(Next(l, s))
  {
    assert l.top <= l.latest && l.top in l.committed && l.drafts.Keys !! l.committed.Keys && 0 in l.committed;
    hide NumbersOk, ParentsOk, ValuesOk, HashesOk, Next;
    NextNumbers(l, s);
    NextParents(l, s);
    NextValues(l, s);
    NextHashes(l, s);
  }

  lemma {:induction false} RunWellformed(l: Ledger, steps: seq<Step>)
    requires Wellformed(l)
    ensures Wellformed(Run(l, steps))
    decreases |steps|
  {
    if steps != [] {
      NextWellformed(l, steps[0]);
      RunWellformed(Next(l, steps[0]), steps[1..]);
    }
  }

  // ----- What no later step changes -----

  /** `m` continues `l`: nothing finished is touched, and newer numbers are larger. */
  ghost predicate Continues(l: Ledger, m: Ledger) {
    l.latest <= m.latest && l.top <= m.top && l.puts <= m.puts && l.aborted <= m.aborted &&
    (forall v | v in l.committed :: v in m.committed && m.committed[v] == l.committed[v]) &&
    (forall v | v in l.hashOf && v in l.committed :: v in m.hashOf && m.hashOf[v] == l.hashOf[v]) &&
    (forall v | v in l.committed :: v in l.stored <==> v in m.stored) &&
    (forall v | v in m.live && v in l.committed :: v in l.live) &&
    (forall v | v in m.drafts && v !in l.drafts :: l.latest < v) &&
    (forall v | v in m.committed && v !in l.committed :: l.latest < v || v in l.drafts)
  }

  lemma NextContinues(l: Ledger, s: Step)
    requires NumbersOk(l)
    ensures Continues(l, Next(l, s))
  {
    hide TwinIn;
  }

  lemma ContinuesItself(l: Ledger)
    ensures Continues(l, l)
  {
  }

  lemma ContinuesTransitive(a: Ledger, b: Ledger, c: Ledger)
    requires Continues(a, b) && Continues(b, c)
    ensures Continues(a, c)
  {
  }

  /** Isolation in time: whatever is committed stays as it is through every continuation of the run. */
  lemma {:induction false} RunContinues(l: Ledger, steps: seq<Step>)
    requires Wellformed(l)
    ensures Continues(l, Run(l, steps))
    decreases |steps|
  {
    hide Wellformed, Continues, Next, Run;
    if steps == [] {
      RunEnds(l);
      ContinuesItself(l);
    } else {
      RunUnfold(l, steps);
      assert NumbersOk(l) by { WellformedNumbers(l); }
      NextContinues(l, steps[0]);
      NextWellformed(l, steps[0]);
      RunContinues(Next(l, steps[0]), steps[1..]);
      ContinuesTransitive(l, Next(l, steps[0]), Run(l, steps));
    }
  }

  lemma WellformedNumbers(l: Ledger)
    requires Wellformed(l)
    ensures NumbersOk(l)
  {
  }

  lemma RunUnfold(l: Ledger, steps: seq<Step>)
    requires steps != []
    ensures Run(l, steps) == Run(Next(l, steps[0]), steps[1..])
  {
  }

  // ----- Root hashes -----

  /** The nearest version, from `v` on up, in which an operation has succeeded; 0 if there is none. */
  ghost function Nearest(l: Ledger, v: Version): Version
    requires ParentsOk(l) && v in l.committed
    decreases v
  {
    if v == 0 || l.committed[v].ops > 0 then v
    else
      assert ParentOf(l.committed[v].parent, v, l.committed.Keys);
      Nearest(l, l.committed[v].parent)
  }

  /** Every version has the root hash of its nearest ancestor with operations, or perhaps none. */
  ghost predicate NearestHashes(l: Ledger, exact: bool)
    requires ParentsOk(l)
  {
    forall v | v in l.committed :: v in l.hashOf && (l.hashOf[v] == Nearest(l, v) || (!exact && l.hashOf[v] == 0))
  }

  /** When a version in which nothing was tried is committed, its parent has not been collected. */
  ghost predicate Attentive(l: Ledger, s: Step) {
    s.Commit? && s.v in l.drafts && l.drafts[s.v].ops == 0 && !l.drafts[s.v].touched ==> l.drafts[s.v].parent in l.live
  }

  ghost predicate AttentiveRun(l: Ledger, steps: seq<Step>)
    decreases |steps|
  {
    steps == [] || (Attentive(l, steps[0]) && AttentiveRun(Next(l, steps[0]), steps[1..]))
  }

  /** What is committed later does not change the nearest ancestor of a version. */
  lemma {:induction false} NearestKept(l: Ledger, m: Ledger, v: Version)
    requires ParentsOk(l) && ParentsOk(m) && v in l.committed
    requires forall w | w in l.committed :: w in m.committed && m.committed[w] == l.committed[w]
    ensures Nearest(m, v) == Nearest(l, v)
    decreases v
  {
    if v > 0 && l.committed[v].ops == 0 {
      assert ParentOf(l.committed[v].parent, v, l.committed.Keys);
      NearestKept(l, m, l.committed[v].parent);
    }
  }

  lemma {:induction false} NearestIsCommitted(l: Ledger, v: Version)
    requires ParentsOk(l) && v in l.committed
    ensures Nearest(l, v) in l.committed
    decreases v
  {
    if v > 0 && l.committed[v].ops == 0 {
      assert ParentOf(l.committed[v].parent, v, l.committed.Keys);
      NearestIsCommitted(l, l.committed[v].parent);
    }
  }

  lemma NewNearest(l: Ledger, m: Ledger, v: Version, exact: bool)
    requires ParentsOk(l) && ParentsOk(m) && NearestHashes(l, exact) && v > 0 && v in l.drafts && v !in l.committed
    requires m.committed == l.committed[v := Sealed(l.drafts[v])]
    requires exact ==> Attentive(l, Commit(v))
    ensures var w := HashSource(l, v, l.drafts[v]); w == Nearest(m, v) || (!exact && w == 0)
  {
    hide ParentsOk, Nearest;
    var d := l.drafts[v];
    NearestUnfold(m, v);
    if d.ops == 0 {
      DraftParentIn(l, v);
      NearestKept(l, m, d.parent);
    }
  }

  lemma NearestUnfold(l: Ledger, v: Version)
    requires ParentsOk(l) && v in l.committed
    ensures v == 0 || l.committed[v].ops > 0 ==> Nearest(l, v) == v
    ensures v > 0 && l.committed[v].ops == 0 ==>
              l.committed[v].parent in l.committed && Nearest(l, v) == Nearest(l, l.committed[v].parent)
  {
    assert ParentOf(l.committed[v].parent, v, l.committed.Keys);
  }

  lemma DraftParentIn(l: Ledger, v: Version)
    requires ParentsOk(l) && v in l.drafts
    ensures l.drafts[v].parent in l.committed
  {
    assert ParentOf(l.drafts[v].parent, v, l.committed.Keys);
  }

  lemma NextNearest(l: Ledger, s: Step, exact: bool)
    requires Wellformed(l) && NearestHashes(l, exact) && (exact ==> Attentive(l, s))
    ensures ParentsOk(Next(l, s)) && NearestHashes(Next(l, s), exact)
  {
    var m := Next(l, s);
    hide NumbersOk, ValuesOk, HashesOk, Nearest, HashSource, CanSeal, TwinIn, ParentsOk;
    NextWellformed(l, s);
    NextContinuesToo(l, s);
    forall v | v in l.committed
      ensures Nearest(m, v) == Nearest(l, v)
    {
      NearestKept(l, m, v);
    }
    if s.Commit? && m != l { NewNearest(l, m, s.v, exact); }
  }

  lemma NextContinuesToo(l: Ledger, s: Step)
    requires Wellformed(l)
    ensures forall w | w in l.committed :: w in Next(l, s).committed && Next(l, s).committed[w] == l.committed[w]
    ensures s.Commit? && s.v in l.drafts ==> s.v > 0 && s.v !in l.committed
  {
    hide ParentsOk, ValuesOk, HashesOk;
    NextContinues(l, s);
  }

  /**
   In every run the root hash recorded for a version is that of its nearest ancestor with operations,
   or none; and it is never none if parents were still there when versions in which nothing was tried
   were committed.
   */
  lemma {:induction false} RunNearest(l: Ledger, steps: seq<Step>, exact: bool)
    requires Wellformed(l) && NearestHashes(l, exact) && (exact ==> AttentiveRun(l, steps))
    ensures ParentsOk(Run(l, steps)) && NearestHashes(Run(l, steps), exact)
    decreases |steps|
  {
    if steps != [] {
      NextNearest(l, steps[0], exact);
      NextWellformed(l, steps[0]);
      hide Wellformed, NearestHashes, Next, Attentive;
      RunNearest(Next(l, steps[0]), steps[1..], exact);
      RunUnfold(l, steps);
    }
  }

  // ----- A version is the replay of its own operations -----

  /** The step is an operation on draft `v` that the draft accepts. */
  predicate Accepts(d: Draft, v: Version, s: Step) {
    v <= MAX_VERSION &&
    match s
    case Put(v', k, value) => v' == v && k != ZERO_KEY && StorableValue(value)
    case Delete(v', k) => v' == v && k != ZERO_KEY && k in d.contents
    case _ => false
  }

  /** The draft after its own operations among `steps`, in order; all other steps are skipped. */
  ghost function Replay(d: Draft, v: Version, steps: seq<Step>): Draft
    decreases |steps|
  {
    if steps == [] then d else Replay(After(d, v, steps[0]), v, steps[1..])
  }

  /** The draft after one step: changed if it accepts it, touched if it refuses a delete. */
  ghost function After(d: Draft, v: Version, s: Step): Draft {
    if Accepts(d, v, s) then Apply(d, s)
    else if s.Delete? && s.v == v && v <= MAX_VERSION && s.key != ZERO_KEY then d.(touched := true)
    else d
  }

  /** No step finishes `v`. */
  ghost predicate Unfinished(v: Version, steps: seq<Step>) {
    forall i | 0 <= i < |steps| :: steps[i] != Commit(v) && steps[i] != Abort(v)
  }

  /** Isolation between versions: steps on other versions do not show in a draft. */
  lemma {:induction false} DraftIsReplay(l: Ledger, v: Version, steps: seq<Step>)
    requires NumbersOk(l) && v in l.drafts
    requires Unfinished(v, steps)
    ensures v in Run(l, steps).drafts && Run(l, steps).drafts[v] == Replay(l.drafts[v], v, steps)
    decreases |steps|
  {
    if steps != [] {
      hide TwinIn, NumbersOk, Run, Replay;
      DraftStep(l, v, steps[0]);
      NextNumbers(l, steps[0]);
      DraftIsReplay(Next(l, steps[0]), v, steps[1..]);
      RunUnfold(l, steps);
      ReplayUnfold(l.drafts[v], v, steps);
    }
  }

  lemma DraftStep(l: Ledger, v: Version, s: Step)
    requires NumbersOk(l) && v in l.drafts && s != Commit(v) && s != Abort(v)
    ensures v in Next(l, s).drafts
    ensures Next(l, s).drafts[v] == After(l.drafts[v], v, s)
  {
    hide TwinIn;
  }

  lemma ReplayUnfold(d: Draft, v: Version, steps: seq<Step>)
    requires steps != []
    ensures Replay(d, v, steps) == Replay(After(d, v, steps[0]), v, steps[1..])
  {
  }

  /** The draft that `Begin` opens. */
  ghost function Opened(l: Ledger): Draft
    requires l.top in l.committed
  {
    Draft(l.top, l.committed[l.top].contents, l.committed[l.top].deep, 0, {}, false)
  }

  /** The state after a version has been begun, committed after `mid`, and followed by `post`. */
  ghost function Story(l: Ledger, v: Version, mid: seq<Step>, post: seq<Step>): Ledger {
    Run(Next(Run(Next(l, Begin), mid), Commit(v)), post)
  }

  /**
   The main theorem about runs.  Take any run in which a version is begun, committed later, and
   anything at all happens before, between and afterwards.  In the final state the version still is
   what replaying its own operations over its parent's map makes it, and the parent's map is still
   the one it began from.
   */
  lemma VersionIsReplay(l: Ledger, v: Version, mid: seq<Step>, post: seq<Step>)
    requires Wellformed(l) && l.top in l.committed && l.latest < MAX_VERSION && v == l.latest + 1
    requires Unfinished(v, mid) && CanSeal(Replay(Opened(l), v, mid))
    ensures var end := Story(l, v, mid, post);
            && v in end.committed && end.committed[v] == Sealed(Replay(Opened(l), v, mid))
            && l.top in end.committed && end.committed[l.top] == l.committed[l.top]
  {
    hide *;
    var a := Next(l, Begin);
    BeginOpens(l);
    TopIsOld(l);
    NextWellformed(l, Begin);
    WellformedNumbers(a);
    var b := Run(a, mid);
    RunWellformed(a, mid);
    DraftIsReplay(a, v, mid);
    RunContinues(a, mid);
    var c := Next(b, Commit(v));
    NextWellformed(b, Commit(v));
    RunContinues(c, post);
    StoryUnfold(l, v, mid, post);
    CommitSeals(a, b, v, l.top);
    Kept(c, Story(l, v, mid, post), v);
    Kept(c, Story(l, v, mid, post), l.top);
  }

  lemma BeginOpens(l: Ledger)
    requires l.top in l.committed && l.latest < MAX_VERSION
    ensures var a := Next(l, Begin);
            && l.latest + 1 in a.drafts && a.drafts[l.latest + 1] == Opened(l)
            && l.top in a.committed && a.committed[l.top] == l.committed[l.top]
  {
  }

  lemma TopIsOld(l: Ledger)
    requires Wellformed(l)
    ensures l.top <= l.latest
  {
    hide ParentsOk, ValuesOk;
  }

  lemma CommitSeals(a: Ledger, b: Ledger, v: Version, w: Version)
    requires v in b.drafts && CanSeal(b.drafts[v]) && w in a.committed && v != w && Continues(a, b)
    ensures var c := Next(b, Commit(v));
            && v in c.committed && c.committed[v] == Sealed(b.drafts[v])
            && w in c.committed && c.committed[w] == a.committed[w]
  {
    hide Sealed;
  }

  lemma Kept(a: Ledger, b: Ledger, v: Version)
    requires Continues(a, b) && v in a.committed
    ensures v in b.committed && b.committed[v] == a.committed[v]
  {
  }

  lemma StoryUnfold(l: Ledger, v: Version, mid: seq<Step>, post: seq<Step>)
    ensures Story(l, v, mid, post) == Run(Next(Run(Next(l, Begin), mid), Commit(v)), post)
  {
  }

  // ----- Runs that never lift a leaf -----

  /** No other of the keys agrees with `k` on the first 63 nibbles. */
  ghost predicate Alone(k: Key, keys: set<Key>) {
    forall x | x in keys && Alike(k, x) :: x == k
  }

  /** No two of the keys agree on their first 63 nibbles. */
  ghost predicate Spread(keys: set<Key>) {
    forall a, b | a in keys && b in keys && Alike(a, b) :: a == b
  }

  /** The step puts only keys of `keys`, and deletes only those that stand alone among them. */
  ghost predicate Tame(s: Step, keys: set<Key>) {
    (s.Put? ==> s.key in keys) && (s.Delete? && s.key in keys ==> Alone(s.key, keys))
  }

  ghost predicate TameRun(steps: seq<Step>, keys: set<Key>) {
    forall i | 0 <= i < |steps| :: Tame(steps[i], keys)
  }

  /** Every version is deep and uses only `keys`. */
  ghost predicate AllDeep(l: Ledger, keys: set<Key>) {
    (forall v | v in l.drafts :: l.drafts[v].deep && l.drafts[v].contents.Keys <= keys) &&
    (forall v | v in l.committed :: l.committed[v].deep && l.committed[v].contents.Keys <= keys)
  }

  lemma AloneHasNoTwin(keys: set<Key>, sub: set<Key>, k: Key)
    requires k in keys ==> Alone(k, keys)
    requires sub <= keys && k in sub
    ensures !TwinIn(sub, k)
  {
    hide Alike;
  }

  /** One tame step keeps every version deep. */
  lemma NextDeep(l: Ledger, s: Step, keys: set<Key>)
    requires AllDeep(l, keys) && Tame(s, keys)
    ensures AllDeep(Next(l, s), keys)
  {
    hide TwinIn, Alone;
    if s.Delete? && CanDelete(l, s.v, s.key) {
      AloneHasNoTwin(keys, l.drafts[s.v].contents.Keys, s.key);
    }
  }

  /** In a tame run every version is deep. */
  lemma {:induction false} TameRunIsDeep(l: Ledger, steps: seq<Step>, keys: set<Key>)
    requires AllDeep(l, keys) && TameRun(steps, keys)
    ensures AllDeep(Run(l, steps), keys)
    decreases |steps|
  {
    if steps != [] {
      hide AllDeep, Tame, Next, Run;
      NextDeep(l, steps[0], keys);
      TameRunIsDeep(Next(l, steps[0]), steps[1..], keys);
      RunUnfold(l, steps);
    }
  }

  /** If no two keys of a run agree on 63 nibbles, the run is tame. */
  lemma SpreadIsTame(steps: seq<Step>, keys: set<Key>)
    requires Spread(keys) && forall i | 0 <= i < |steps| && steps[i].Put? :: steps[i].key in keys
    ensures TameRun(steps, keys)
  {
    hide Alike;
  }

  /** A run without deletes is tame, whatever its keys. */
  lemma {:induction false} PutsAreTame(steps: seq<Step>) returns (keys: set<Key>)
    requires forall i | 0 <= i < |steps| :: !steps[i].Delete?
    ensures TameRun(steps, keys)
    decreases |steps|
  {
    if steps == [] { return {}; }
    var rest := PutsAreTame(steps[1..]);
    keys := rest + if steps[0].Put? then {steps[0].key} else {};
    forall i | 0 <= i < |steps|
      ensures Tame(steps[i], keys)
    {
      assert i > 0 ==> Tame(steps[1..][i - 1], rest);
    }
  }

  // ----- Runs in which every commit goes through -----

  /**
   At every commit of a version with a successful operation, no two of the strings hashed for the
   maps that the version has been collide.
   */
  ghost predicate Smooth(H: Hasher, l: Ledger, steps: seq<Step>)
    decreases |steps|
  {
    steps == [] || (SmoothStep(H, l, steps[0]) && Smooth(H, Next(l, steps[0]), steps[1..]))
  }

  ghost predicate SmoothStep(H: Hasher, l: Ledger, s: Step) {
    s.Commit? && s.v in l.drafts && l.drafts[s.v].ops > 0 ==> CollisionFree(H, StringsOf(H, l.drafts[s.v].past))
  }

  lemma SmoothUnfold(H: Hasher, l: Ledger, steps: seq<Step>)
    requires steps != []
    ensures Smooth(H, l, steps) <==> SmoothStep(H, l, steps[0]) && Smooth(H, Next(l, steps[0]), steps[1..])
  {
  }

  /** The two differ at most in what has been collected, and so in the hashes of versions without operations. */
  ghost predicate SameButLive(a: Ledger, b: Ledger) {
    a == b.(live := a.live, hashOf := a.hashOf)
  }

  /** The same step, or two collections. */
  predicate Matches(asked: Step, done: Step) {
    if asked.Collect? then done.Collect? else done == asked
  }

  ghost predicate MatchAll(asked: seq<Step>, done: seq<Step>) {
    |done| == |asked| && forall i | 0 <= i < |asked| :: Matches(asked[i], done[i])
  }

  lemma NextSameButLive(a: Ledger, b: Ledger, s: Step, s': Step)
    requires SameButLive(a, b) && Matches(s, s')
    ensures SameButLive(Next(a, s), Next(b, s'))
  {
    hide TwinIn, Sealed;
  }

  /** Whether a run is smooth does not depend on what is collected. */
  lemma {:induction false} SmoothSame(H: Hasher, a: Ledger, b: Ledger, asked: seq<Step>, done: seq<Step>)
    requires SameButLive(a, b) && MatchAll(asked, done) && Smooth(H, a, asked)
    ensures Smooth(H, b, done)
    decreases |asked|
  {
    if asked != [] {
      hide Next, Smooth, CollisionFree, StringsOf;
      assert Matches(asked[0], done[0]);
      NextSameButLive(a, b, asked[0], done[0]);
      SmoothUnfold(H, a, asked);
      SmoothUnfold(H, b, done);
      forall i | 0 <= i < |asked[1..]|
        ensures Matches(asked[1..][i], done[1..][i])
      {
        assert Matches(asked[i + 1], done[i + 1]);
      }
      SmoothSame(H, Next(a, asked[0]), Next(b, done[0]), asked[1..], done[1..]);
    } else {
      assert done == [];
    }
  }

  lemma SelfMatch(steps: seq<Step>)
    ensures MatchAll(steps, steps)
  {
  }

  // ----- One operation in a version of its own -----

  /** The number that `Begin` would give. */
  function NextNumber(l: Ledger): Version {
    if l.latest < MAX_VERSION then l.latest + 1 else l.latest
  }

  /** A version begun, changed once and committed. */
  ghost function Single(l: Ledger, s: Step): Ledger
    requires s.Put? || s.Delete?
  {
    Next(Next(Next(l, Begin), s), Commit(s.v))
  }

  /** The same, given up instead. */
  ghost function GivenUp(l: Ledger, s: Step): Ledger
    requires s.Put? || s.Delete?
  {
    Next(Next(Next(l, Begin), s), Abort(s.v))
  }

  /** The operation can be made in a new version. */
  ghost predicate Possible(l: Ledger, s: Step)
    requires s.Put? || s.Delete?
  {
    l.latest < MAX_VERSION && s.v == NextNumber(l) && l.top in l.committed && s.key != ZERO_KEY &&
    if s.Put? then StorableValue(s.value) else s.key in l.committed[l.top].contents
  }

  /** The map that the operation would make. */
  ghost function Made(l: Ledger, s: Step): Contents
    requires s.Put? || s.Delete?
  {
    if l.top !in l.committed then map[]
    else if s.Put? then l.committed[l.top].contents[s.key := s.value]
    else l.committed[l.top].contents - {s.key}
  }

  /** The operation would lift a leaf. */
  ghost predicate Lifts(l: Ledger, s: Step) {
    s.Delete? && l.top in l.committed && TwinIn(l.committed[l.top].contents.Keys, s.key)
  }

  ghost predicate TopDeep(l: Ledger) {
    l.top in l.committed && l.committed[l.top].deep
  }

  /** A put that is refused before a version is begun for it. */
  predicate BadInput(s: Step) {
    s.Put? && (s.key == ZERO_KEY || !StorableValue(s.value))
  }

  /**
   A single operation either makes a version of its own, or leaves an aborted number behind, or
   nothing at all if its input is bad or no number is left.
   */
  ghost predicate Outcome(l: Ledger, m: Ledger, s: Step, ok: bool)
    requires s.Put? || s.Delete?
  {
    if ok then Possible(l, s) && m == Single(l, s)
    else if BadInput(s) || l.latest == MAX_VERSION then m == l
    else m == GivenUp(l, s)
  }

  /** The newest version is the one before with the one change made, and all others are as they were. */
  lemma SuccessIsUpdate(l: Ledger, m: Ledger, s: Step)
    requires Wellformed(l) && (s.Put? || s.Delete?) && Outcome(l, m, s, true)
    ensures var before := l.committed[l.top].contents;
            && m.top == s.v && m.top in m.committed && m.drafts == l.drafts
            && m.committed[m.top].contents == (if s.Put? then before[s.key := s.value] else before - {s.key})
            && m.committed - {s.v} == l.committed
  {
    hide TwinIn, ParentsOk, ValuesOk, HashesOk, HashSource;
  }

  /**
   A failure leaves every committed and every pending version as it was.  It uses up exactly one
   number, or none if the input is bad or none is left.
   */
  lemma FailureChangesNothing(l: Ledger, m: Ledger, s: Step)
    requires Wellformed(l) && (s.Put? || s.Delete?) && s.v == NextNumber(l) && Outcome(l, m, s, false)
    ensures m.committed == l.committed && m.live == l.live && m.top == l.top && m.drafts == l.drafts
    ensures if BadInput(s) || l.latest == MAX_VERSION then m.latest == l.latest && m.aborted == l.aborted
            else m.latest == l.latest + 1 && m.aborted == l.aborted + {m.latest}
  {
    hide Next, ParentsOk, ValuesOk, HashesOk, StorableValue, CanPut, CanDelete;
    if !BadInput(s) && l.latest < MAX_VERSION {
      var a := Next(l, Begin);
      BeginAdds(l);
      OperationKeeps(a, s);
      AbortRemoves(Next(a, s), s.v);
      assert Next(a, s).drafts - {s.v} == a.drafts - {s.v} == l.drafts;
    }
  }

  lemma BeginAdds(l: Ledger)
    requires NumbersOk(l) && l.latest < MAX_VERSION
    ensures var a, v := Next(l, Begin), l.latest + 1;
            && a == l.(latest := v, drafts := a.drafts) && v in a.drafts && v !in l.drafts && a.drafts - {v} == l.drafts
  {
  }

  lemma OperationKeeps(a: Ledger, s: Step)
    requires (s.Put? || s.Delete?) && s.v in a.drafts
    ensures var b := Next(a, s);
            && b == a.(drafts := b.drafts, puts := b.puts) && s.v in b.drafts && b.drafts - {s.v} == a.drafts - {s.v}
  {
    hide Apply, StorableValue;
  }

  lemma AbortRemoves(b: Ledger, v: Version)
    requires v in b.drafts
    ensures Next(b, Abort(v)) == b.(drafts := b.drafts - {v}, aborted := b.aborted + {v})
  {
  }

  /** The draft just before it is committed or given up. */
  lemma SingleDraft(l: Ledger, s: Step)
    requires l.top in l.committed && l.latest < MAX_VERSION && (s.Put? || s.Delete?) && s.v == NextNumber(l)
    ensures var a, b := Next(l, Begin), Next(Next(l, Begin), s);
            && s.v in a.drafts && a.drafts[s.v] == Opened(l)
            && (s.Put? ==> (CanPut(a, s.v, s.key, s.value) <==> Possible(l, s)))
            && (s.Delete? ==> (CanDelete(a, s.v, s.key) <==> Possible(l, s)))
            && s.v in b.drafts && (Possible(l, s) ==> b.drafts[s.v].past == {Made(l, s)})
            && (Possible(l, s) ==> b.drafts[s.v].ops > 0 && (b.drafts[s.v].deep <==> TopDeep(l) && !Lifts(l, s)))
  {
    hide TwinIn;
  }

  // ----- Two runs that show where the conditions bite -----

  /** A key that ends in the given byte and is zero elsewhere. */
  function LowKey(last: Byte): (k: Key)
    ensures k[31] == last && forall i | 0 <= i < 31 :: k[i] == 0
  {
    Zeros(31) + [last]
  }

  /** Committing a version without operations loses what its parent held. */
  lemma EmptyCommitExample(k: Key)
    requires k != ZERO_KEY
    ensures var l := Run(INITIAL, [Begin, Put(1, k, [7]), Commit(1), Begin, Commit(2)]);
            && 1 in l.committed && l.committed[1].contents == map[k := [7]]
            && l.top == 2 && 2 in l.committed && l.committed[2].parent == 1 && l.committed[2].contents == map[]
  {
    var a := Next(Next(Next(INITIAL, Begin), Put(1, k, [7])), Commit(1));
    assert map[][k := [7]] == map[k := [7]];
    assert a.committed[1] == Entry(0, map[k := [7]], true, 1);
    var b := Next(Next(a, Begin), Commit(2));
    var steps := [Begin, Put(1, k, [7]), Commit(1), Begin, Commit(2)];
    hide Next;
    RunUnfold(INITIAL, steps);
    RunUnfold(Next(INITIAL, Begin), steps[1..]);
    RunUnfold(Next(Next(INITIAL, Begin), Put(1, k, [7])), steps[2..]);
    RunUnfold(a, steps[3..]);
    RunUnfold(Next(a, Begin), steps[4..]);
  }

  lemma LowKeysAlike()
    ensures LowKey(0x10) != LowKey(0x11) && Alike(LowKey(0x10), LowKey(0x11))
    ensures LowKey(0x10) != ZERO_KEY && LowKey(0x11) != ZERO_KEY
  {
    var a, b := LowKey(0x10), LowKey(0x11);
    forall i | 0 <= i < MAX_DEPTH - 1
      ensures ToPath(a)[i] == ToPath(b)[i]
    {
      assert a[i / 2] / 16 == b[i / 2] / 16;
      assert i / 2 < 31 ==> a[i / 2] == b[i / 2];
    }
    assert ToPath(a)[..MAX_DEPTH - 1] == ToPath(b)[..MAX_DEPTH - 1];
    assert a[31] != b[31] && a[31] != ZERO_KEY[31] && b[31] != ZERO_KEY[31];
  }

  /**
   The keys 0...010 and 0...011 are twins: after a run that puts both, either can be deleted, which
   lifts the other's leaf.
   */
  lemma TwinExample()
    ensures var a, b := LowKey(0x10), LowKey(0x11);
            var l := Run(INITIAL, [Begin, Put(1, a, [7]), Put(1, b, [7]), Commit(1)]);
            Possible(l, Delete(2, a)) && Lifts(l, Delete(2, a))
  {
    hide LowKey, Alike, TwinIn, Next, Run;
    var a, b := LowKey(0x10), LowKey(0x11);
    LowKeysAlike();
    TwoPuts(a, b);
    TwoAreTwins(a, b);
    var steps := [Begin, Put(1, a, [7]), Put(1, b, [7]), Commit(1)];
    assert steps[1..][1..] == steps[2..] && steps[2..][1..] == steps[3..] && steps[3..][1..] == [];
    RunUnfold(INITIAL, steps);
    RunUnfold(Next(INITIAL, Begin), steps[1..]);
    RunUnfold(Next(Next(INITIAL, Begin), steps[1]), steps[2..]);
    RunUnfold(Next(Next(Next(INITIAL, Begin), steps[1]), steps[2]), steps[3..]);
    RunEnds(Next(Next(Next(Next(INITIAL, Begin), steps[1]), steps[2]), steps[3]));
  }

  lemma RunEnds(l: Ledger)
    ensures Run(l, []) == l
  {
  }

  lemma TwoPuts(a: Key, b: Key)
    requires a != ZERO_KEY && b != ZERO_KEY
    ensures var l := Next(Next(Next(Next(INITIAL, Begin), Put(1, a, [7])), Put(1, b, [7])), Commit(1));
            && l.latest == 1 && l.top == 1 && 1 in l.committed && l.committed[1].contents.Keys == {a, b}
  {
    hide TwinIn;
    assert map[][a := [7]] == map[a := [7]];
    assert map[a := [7]][b := [7]].Keys == {a, b};
  }

  lemma TwoAreTwins(a: Key, b: Key)
    requires a != b && Alike(a, b)
    ensures TwinIn({a, b}, a)
  {
    hide Alike;
    assert IsOnlyTwin({a, b}, a, b);
  }
}
