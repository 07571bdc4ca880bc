/**
 The resource counters of the in-memory store under concurrency (pkg/storage/memory/memory.go).

 Every resource goes through atomic steps: taking a reference by compare-and-swap, counting itself,
 perhaps undoing that, being used, being closed, and giving back what it took.  The steps of
 different resources interleave in any order.
 */
module StoreLimits {

  datatype Kind = Batch | Iterator | Snapshot | SnapshotIterator

  datatype Phase =
    | Starting                // about to look at the closing flag
    | Cleared                 // has found the flag clear, about to load the reference count
    | Loaded(seen: int)       // has loaded the reference count, about to compare and swap
    | Referenced              // holds a reference, not counted yet
    | Refusing                // counted beyond the limit, about to take that back
    | Refused                 // about to give the reference back
    | Live
    | Uncounting              // closed, about to take itself off the counter
    | Releasing               // about to give the reference back
    | Gone

  datatype Resource = Resource(kind: Kind, phase: Phase)

  datatype Store = Store(
    refCount: int,
    openIterators: int,
    openSnapshots: int,
    maxIterators: int,
    maxSnapshots: int,
    closing: bool,
    resources: seq<Resource>)

  datatype Step =
    | Open(kind: Kind)        // a call that creates a resource begins
    | Advance(i: nat)         // the next atomic step of a call in progress
    | Close(i: nat)           // Close, or the commit of a batch, sets the closed flag
    | CloseStore

  function NewStore(maxIterators: int, maxSnapshots: int): Store {
    Store(0, 0, 0, maxIterators, maxSnapshots, false, [])
  }

  // ----- The atomic steps -----

  predicate IsIterator(k: Kind) {
    k == Iterator || k == SnapshotIterator
  }

  /** What counting one more of a kind leads to. */
  function Counted(current: int, limit: int): Phase {
    if limit > 0 && current > limit then Refusing else Live
  }

  function Moved(s: Store, i: nat, p: Phase): Store
    requires i < |s.resources|
  {
    s.(resources := s.resources[i := s.resources[i].(phase := p)])
  }

  /** The next atomic step of the call that resource `i` is in; nothing if it is in none. */
  function AdvanceStep(s: Store, i: nat): Store
    requires i < |s.resources|
  {
    var r := s.resources[i];
    match r.phase
    case Starting => Moved(s, i, if s.closing then Gone else Cleared)
    case Cleared => Moved(s, i, Loaded(s.refCount))
    case Loaded(seen) =>
      if s.refCount == seen then Moved(s, i, Referenced).(refCount := s.refCount + 1) else Moved(s, i, Starting)
    case Referenced =>
      if r.kind == Batch then Moved(s, i, Live)
      else if r.kind == Snapshot then
        Moved(s, i, Counted(s.openSnapshots + 1, s.maxSnapshots)).(openSnapshots := s.openSnapshots + 1)
      else Moved(s, i, Counted(s.openIterators + 1, s.maxIterators)).(openIterators := s.openIterators + 1)
    case Refusing =>
      if r.kind == Snapshot then Moved(s, i, Refused).(openSnapshots := s.openSnapshots - 1)
      else Moved(s, i, if r.kind == SnapshotIterator then Gone else Refused).(openIterators := s.openIterators - 1)
    case Refused => Moved(s, i, Gone).(refCount := s.refCount - 1)
    case Uncounting =>
      if r.kind == Snapshot then Moved(s, i, Releasing).(openSnapshots := s.openSnapshots - 1)
      else Moved(s, i, if r.kind == SnapshotIterator then Gone else Releasing).(openIterators := s.openIterators - 1)
    case Releasing => Moved(s, i, Gone).(refCount := s.refCount - 1)
    case _ => s
  }

  /** An iterator over a snapshot takes no reference of its own. */
  function FirstPhase(k: Kind): Phase {
    if k == SnapshotIterator then Referenced else Starting
  }

  function Next(s: Store, step: Step): Store {
    match step
    case Open(k) => s.(resources := s.resources + [Resource(k, FirstPhase(k))])
    case Advance(i) => if i < |s.resources| then AdvanceStep(s, i) else s
    case Close(i) =>
      if i < |s.resources| && s.resources[i].phase == Live
      then Moved(s, i, if s.resources[i].kind == Batch then Releasing else Uncounting) else s
    case CloseStore => s.(closing := true)
  }

  function Run(s: Store, steps: seq<Step>): Store
    decreases |steps|
  {
    if steps == [] then s else Run(Next(s, steps[0]), steps[1..])
  }

  // ----- Counting -----

  datatype Class = LiveIterators | LiveSnapshots | CountedIterators | CountedSnapshots | Referring

  /** On the counter of its kind, or about to come off it. */
  predicate OnCounter(p: Phase) {
    p == Live || p == Refusing || p == Uncounting
  }

  predicate HoldsRef(p: Phase) {
    p == Referenced || p == Refusing || p == Refused || p == Live || p == Uncounting || p == Releasing
  }

  predicate In(r: Resource, c: Class) {
    match c
    case LiveIterators => IsIterator(r.kind) && r.phase == Live
    case LiveSnapshots => r.kind == Snapshot && r.phase == Live
    case CountedIterators => IsIterator(r.kind) && OnCounter(r.phase)
    case CountedSnapshots => r.kind == Snapshot && OnCounter(r.phase)
    case Referring => r.kind != SnapshotIterator && HoldsRef(r.phase)
  }

  function One(r: Resource, c: Class): nat {
    if In(r, c) then 1 else 0
  }

  function Count(q: seq<Resource>, c: Class): nat {
    if q == [] then 0 else Count(q[..|q| - 1], c) + One(q[|q| - 1], c)
  }

  lemma {:induction false} CountMoved(q: seq<Resource>, i: nat, r: Resource, c: Class)
    requires i < |q|
    ensures Count(q[i := r], c) == Count(q, c) - One(q[i], c) + One(r, c)
    decreases |q|
  {
    var init := q[..|q| - 1];
    if i < |q| - 1 {
      CountMoved(init, i, r, c);
      assert q[i := r][..|q| - 1] == init[i := r];
    } else {
      assert q[i := r][..|q| - 1] == init;
    }
  }

  lemma CountAdded(q: seq<Resource>, r: Resource, c: Class)
    ensures Count(q + [r], c) == Count(q, c) + One(r, c)
  {
    assert (q + [r])[..|q|] == q;
  }

  /** What is live is on the counter. */
  lemma {:induction false} LiveIsCounted(q: seq<Resource>)
    ensures Count(q, LiveIterators) <= Count(q, CountedIterators)
    ensures Count(q, LiveSnapshots) <= Count(q, CountedSnapshots)
    decreases |q|
  {
    if q != [] { LiveIsCounted(q[..|q| - 1]); }
  }

  // ----- The invariant -----

  /** A batch is never counted; an iterator over a snapshot never has a reference to give back. */
  predicate PhaseOk(r: Resource) {
    (r.kind == Batch ==> r.phase != Refusing && r.phase != Refused && r.phase != Uncounting) &&
    (r.kind == SnapshotIterator ==> r.phase in {Referenced, Refusing, Live, Uncounting, Gone})
  }

  ghost predicate Inv(s: Store) {
    (forall i | 0 <= i < |s.resources| :: PhaseOk(s.resources[i])) &&
    s.openIterators == Count(s.resources, CountedIterators) &&
    s.openSnapshots == Count(s.resources, CountedSnapshots) &&
    s.refCount == Count(s.resources, Referring) &&
    (s.maxIterators > 0 ==> Count(s.resources, LiveIterators) <= s.maxIterators) &&
    (s.maxSnapshots > 0 ==> Count(s.resources, LiveSnapshots) <= s.maxSnapshots)
  }

  /** The counts after resource `i` has moved to another phase. */
  lemma MovedCounts(s: Store, i: nat, p: Phase)
    requires i < |s.resources|
    ensures forall c :: Count(Moved(s, i, p).resources, c) ==
                        Count(s.resources, c) - One(s.resources[i], c) + One(s.resources[i].(phase := p), c)
  {
    forall c
      ensures Count(Moved(s, i, p).resources, c) ==
          Count(s.resources, c) - One(s.resources[i], c) + One(s.resources[i].(phase := p), c)
    {
      CountMoved(s.resources, i, s.resources[i].(phase := p), c);
    }
  }

  lemma TakingRefKeeps(s: Store, i: nat)
    requires Inv(s) && i < |s.resources| && s.resources[i].phase in {Starting, Cleared}
    ensures Inv(AdvanceStep(s, i))
  {
    hide Count;
    MovedCounts(s, i, AdvanceStep(s, i).resources[i].phase);
  }

  lemma SwappingKeeps(s: Store, i: nat)
    requires Inv(s) && i < |s.resources| && s.resources[i].phase.Loaded?
    ensures Inv(AdvanceStep(s, i))
  {
    hide Count;
    MovedCounts(s, i, AdvanceStep(s, i).resources[i].phase);
  }

  /** The counter includes everything live, so whoever finds it within the limit may become live. */
  lemma CountingKeeps(s: Store, i: nat)
    requires Inv(s) && i < |s.resources| && s.resources[i].phase == Referenced
    ensures Inv(AdvanceStep(s, i))
  {
    hide Count;
    LiveIsCounted(s.resources);
    MovedCounts(s, i, AdvanceStep(s, i).resources[i].phase);
  }

  lemma UndoingKeeps(s: Store, i: nat)
    requires Inv(s) && i < |s.resources| && (s.resources[i].phase == Refusing || s.resources[i].phase == Refused)
    ensures Inv(AdvanceStep(s, i))
  {
    hide Count;
    MovedCounts(s, i, AdvanceStep(s, i).resources[i].phase);
  }

  lemma LettingGoKeeps(s: Store, i: nat)
    requires Inv(s) && i < |s.resources| && (s.resources[i].phase == Uncounting || s.resources[i].phase == Releasing)
    ensures Inv(AdvanceStep(s, i))
  {
    hide Count;
    MovedCounts(s, i, AdvanceStep(s, i).resources[i].phase);
  }

  lemma AdvanceKeeps(s: Store, i: nat)
    requires Inv(s) && i < |s.resources|
    ensures Inv(AdvanceStep(s, i))
  {
    hide Inv;
    match s.resources[i].phase
    case Starting => TakingRefKeeps(s, i);
    case Cleared => TakingRefKeeps(s, i);
    case Loaded(_) => SwappingKeeps(s, i);
    case Referenced => CountingKeeps(s, i);
    case Refusing => UndoingKeeps(s, i);
    case Refused => UndoingKeeps(s, i);
    case Uncounting => LettingGoKeeps(s, i);
    case Releasing => LettingGoKeeps(s, i);
    case Live =>
    case Gone =>
  }

  lemma NextKeeps(s: Store, step: Step)
    requires Inv(s)
    ensures Inv(Next(s, step))
  {
    hide Count;
    match step
    case Open(k) =>
      var r := Resource(k, FirstPhase(k));
      forall c
        ensures Count(s.resources + [r], c) == Count(s.resources, c) + One(r, c)
      {
        CountAdded(s.resources, r, c);
      }
    case Advance(i) =>
      if i < |s.resources| { AdvanceKeeps(s, i); }
    case Close(i) =>
      if i < |s.resources| && s.resources[i].phase == Live {
        MovedCounts(s, i, if s.resources[i].kind == Batch then Releasing else Uncounting);
      }
    case CloseStore =>
  }

  /** Over every interleaving: limits hold and the counters count. */
  lemma {:induction false} RunKeeps(s: Store, steps: seq<Step>)
    requires Inv(s)
    ensures Inv(Run(s, steps))
    decreases |steps|
  {
    if steps != [] {
      hide Inv, Next;
      NextKeeps(s, steps[0]);
      RunKeeps(Next(s, steps[0]), steps[1..]);
    }
  }

  lemma {:induction false} LimitsFixed(s: Store, steps: seq<Step>)
    ensures Run(s, steps).maxIterators == s.maxIterators && Run(s, steps).maxSnapshots == s.maxSnapshots
    decreases |steps|
  {
    if steps != [] { LimitsFixed(Next(s, steps[0]), steps[1..]); }
  }

  /** From a new store, live iterators, direct or over snapshots, and live snapshots never exceed a positive limit. */
  lemma LimitsHold(maxIterators: int, maxSnapshots: int, steps: seq<Step>)
    ensures var s := Run(NewStore(maxIterators, maxSnapshots), steps);
            && (maxIterators > 0 ==> Count(s.resources, LiveIterators) <= maxIterators)
            && (maxSnapshots > 0 ==> Count(s.resources, LiveSnapshots) <= maxSnapshots)
  {
    RunKeeps(NewStore(maxIterators, maxSnapshots), steps);
    LimitsFixed(NewStore(maxIterators, maxSnapshots), steps);
  }

  // ----- Who gets in -----

  /** There is room for one more, counting those that are about to come off the counter. */
  ghost predicate HasRoom(s: Store, k: Kind) {
    match k
    case Batch => true
    case Snapshot => s.maxSnapshots <= 0 || Count(s.resources, CountedSnapshots) < s.maxSnapshots
    case _ => s.maxIterators <= 0 || Count(s.resources, CountedIterators) < s.maxIterators
  }

  /** Whatever else is in flight, a resource that counts itself becomes live if and only if there is room for it. */
  lemma LiveIffRoom(s: Store, i: nat)
    requires Inv(s) && i < |s.resources| && s.resources[i].phase == Referenced
    ensures Next(s, Advance(i)).resources[i].phase == Live <==> HasRoom(s, s.resources[i].kind)
    ensures Next(s, Advance(i)).resources[i].phase == Refusing <==> !HasRoom(s, s.resources[i].kind)
  {
    hide Count;
  }

  /** The store after a resource has been handed out: one more resource, one more on each counter that it is on. */
  function HandedOut(s: Store, k: Kind): Store {
    Store(
      s.refCount + if k == SnapshotIterator then 0 else 1,
      s.openIterators + if IsIterator(k) then 1 else 0,
      s.openSnapshots + if k == Snapshot then 1 else 0,
      s.maxIterators, s.maxSnapshots, s.closing, s.resources + [Resource(k, Live)])
  }

  /** The store with one more resource in the given phase, which holds and counts what that phase says. */
  function With(s: Store, k: Kind, p: Phase): Store {
    var r := Resource(k, p);
    s.(refCount := s.refCount + One(r, Referring),
       openIterators := s.openIterators + One(r, CountedIterators),
       openSnapshots := s.openSnapshots + One(r, CountedSnapshots),
       resources := s.resources + [r])
  }

  /** The phase after one undisturbed step. */
  ghost function Onward(s: Store, k: Kind, p: Phase): Phase {
    match p
    case Starting => if s.closing then Gone else Cleared
    case Cleared => Loaded(s.refCount)
    case Loaded(_) => Referenced
    case Referenced => if HasRoom(s, k) then Live else Refusing
    case Refusing => if k == SnapshotIterator then Gone else Refused
    case Refused => Gone
    case _ => p
  }

  ghost predicate OnItsWay(s: Store, k: Kind, p: Phase) {
    PhaseOk(Resource(k, p)) && p != Uncounting && p != Releasing && (p.Loaded? ==> p.seen == s.refCount)
  }

  lemma OnwardStep(s: Store, k: Kind, p: Phase)
    requires Inv(s) && OnItsWay(s, k, p)
    ensures Next(With(s, k, p), Advance(|s.resources|)) == With(s, k, Onward(s, k, p))
    ensures OnItsWay(s, k, Onward(s, k, p))
  {
    hide Count;
    LastMoved(s.resources, Resource(k, p), Resource(k, Onward(s, k, p)));
  }

  lemma LastMoved(q: seq<Resource>, a: Resource, b: Resource)
    ensures (q + [a])[|q| := b] == q + [b]
  {
  }

  /** The next `n` steps of the call that resource `i` is in. */
  function Own(i: nat, n: nat): seq<Step> {
    if n == 0 then [] else [Advance(i)] + Own(i, n - 1)
  }

  ghost function Further(s: Store, k: Kind, p: Phase, n: nat): Phase
    decreases n
  {
    if n == 0 then p else Further(s, k, Onward(s, k, p), n - 1)
  }

  lemma {:induction false} OwnRun(s: Store, k: Kind, p: Phase, n: nat)
    requires Inv(s) && OnItsWay(s, k, p)
    ensures Run(With(s, k, p), Own(|s.resources|, n)) == With(s, k, Further(s, k, p, n))
    decreases n
  {
    hide Inv, With, Next, Onward, OnItsWay;
    if n > 0 {
      OnwardStep(s, k, p);
      OwnRun(s, k, Onward(s, k, p), n - 1);
      assert Own(|s.resources|, n)[1..] == Own(|s.resources|, n - 1);
    }
  }

  /** Six steps are enough for every call: four to take and count, two to take that back. */
  lemma SixSteps(s: Store, k: Kind)
    ensures Further(s, k, FirstPhase(k), 6) ==
            if HasRoom(s, k) && (!s.closing || k == SnapshotIterator) then Live else Gone
  {
    hide HasRoom;
    var p := Onward(s, k, Onward(s, k, FirstPhase(k)));
    assert Further(s, k, FirstPhase(k), 6) == Further(s, k, p, 4);
    assert Further(s, k, p, 4) == Further(s, k, Onward(s, k, Onward(s, k, p)), 2);
  }

  /**
   A call that is not disturbed.  It hands out the resource if and only if there is room and the
   store is not closing or the iterator is over a snapshot; otherwise it leaves every counter as it was.
   */
  lemma OpenAlone(s: Store, k: Kind)
    requires Inv(s)
    ensures Run(s, [Open(k)] + Own(|s.resources|, 6)) ==
            if HasRoom(s, k) && (!s.closing || k == SnapshotIterator) then HandedOut(s, k)
            else s.(resources := s.resources + [Resource(k, Gone)])
  {
    hide Inv, HasRoom, Further, Own, Next, With, HandedOut, OnItsWay;
    SixSteps(s, k);
    FirstAndLast(s, k);
    OwnRun(s, k, FirstPhase(k), 6);
    assert ([Open(k)] + Own(|s.resources|, 6))[1..] == Own(|s.resources|, 6);
  }

  lemma FirstAndLast(s: Store, k: Kind)
    ensures Next(s, Open(k)) == With(s, k, FirstPhase(k)) && OnItsWay(s, k, FirstPhase(k))
    ensures With(s, k, Live) == HandedOut(s, k)
    ensures With(s, k, Gone) == s.(resources := s.resources + [Resource(k, Gone)])
  {
  }

  // ----- Giving back -----

  /** The store after resource `i` has been given back. */
  function HandedBack(s: Store, i: nat): Store
    requires i < |s.resources|
  {
    var k := s.resources[i].kind;
    Store(
      s.refCount - if k == SnapshotIterator then 0 else 1,
      s.openIterators - if IsIterator(k) then 1 else 0,
      s.openSnapshots - if k == Snapshot then 1 else 0,
      s.maxIterators, s.maxSnapshots, s.closing, s.resources[i := Resource(k, Gone)])
  }

  /** Closing a live resource takes it off its counter and gives its reference back, and does nothing else. */
  lemma CloseGivesBack(s: Store, i: nat)
    requires i < |s.resources| && s.resources[i].phase == Live
    ensures Run(s, [Close(i)] + Own(i, 2)) == HandedBack(s, i)
  {
    hide Next;
    assert ([Close(i)] + Own(i, 2))[1..] == Own(i, 2);
    assert Own(i, 2)[1..] == Own(i, 1) && Own(i, 1) == [Advance(i)];
    assert Run(Next(s, Close(i)), Own(i, 2)) == Run(Next(Next(s, Close(i)), Advance(i)), Own(i, 1));
    LettingGo(s, i);
  }

  lemma LettingGo(s: Store, i: nat)
    requires i < |s.resources| && s.resources[i].phase == Live
    ensures Next(Next(Next(s, Close(i)), Advance(i)), Advance(i)) == HandedBack(s, i)
  {
  }

  /** After the store has been closed nothing new is handed out, apart from iterators over snapshots. */
  lemma ClosedForGood(s: Store, before: seq<Step>, k: Kind, steps: seq<Step>)
    requires k != SnapshotIterator
    ensures var closed := Run(Next(s, CloseStore), before);
            var i := |closed.resources|;
            var end := Run(Next(closed, Open(k)), steps);
            i < |end.resources| && end.resources[i].kind == k && end.resources[i].phase in {Starting, Gone}
  {
    var closed := Run(Next(s, CloseStore), before);
    StaysClosed(Next(s, CloseStore), before);
    NeverBeyondTheFlag(Next(closed, Open(k)), |closed.resources|, steps);
  }

  lemma {:induction false} StaysClosed(s: Store, steps: seq<Step>)
    requires s.closing
    ensures Run(s, steps).closing
    decreases |steps|
  {
    if steps != [] { StaysClosed(Next(s, steps[0]), steps[1..]); }
  }

  lemma {:induction false} NeverBeyondTheFlag(s: Store, i: nat, steps: seq<Step>)
    requires s.closing && i < |s.resources| && s.resources[i].phase in {Starting, Gone}
    ensures var end := Run(s, steps);
            i < |end.resources| && end.resources[i].kind == s.resources[i].kind &&
            end.resources[i].phase in {Starting, Gone}
    decreases |steps|
  {
    if steps != [] {
      StaysOut(s, i, steps[0]);
      NeverBeyondTheFlag(Next(s, steps[0]), i, steps[1..]);
    }
  }

  lemma StaysOut(s: Store, i: nat, step: Step)
    requires s.closing && i < |s.resources| && s.resources[i].phase in {Starting, Gone}
    ensures var t := Next(s, step);
            t.closing && i < |t.resources| && t.resources[i].kind == s.resources[i].kind &&
            t.resources[i].phase in {Starting, Gone}
  {
  }

  // ----- Nothing in flight -----

  /** Every resource is in use or gone. */
  ghost predicate Quiet(s: Store) {
    forall i | 0 <= i < |s.resources| :: s.resources[i].phase == Live || s.resources[i].phase == Gone
  }

  function LiveRefs(q: seq<Resource>): nat {
    if q == [] then 0
    else LiveRefs(q[..|q| - 1]) + if q[|q| - 1].phase == Live && q[|q| - 1].kind != SnapshotIterator then 1 else 0
  }

  lemma {:induction false} QuietCounts(q: seq<Resource>)
    requires forall i | 0 <= i < |q| :: q[i].phase == Live || q[i].phase == Gone
    ensures Count(q, CountedIterators) == Count(q, LiveIterators)
    ensures Count(q, CountedSnapshots) == Count(q, LiveSnapshots)
    ensures Count(q, Referring) == LiveRefs(q)
    decreases |q|
  {
    if q != [] { QuietCounts(q[..|q| - 1]); }
  }

  /** With nothing in flight the counters are exact: references are live batches, direct iterators and snapshots. */
  lemma QuietIsExact(maxIterators: int, maxSnapshots: int, steps: seq<Step>)
    requires Quiet(Run(NewStore(maxIterators, maxSnapshots), steps))
    ensures var s := Run(NewStore(maxIterators, maxSnapshots), steps);
            && s.openIterators == Count(s.resources, LiveIterators) &&
                 s.openSnapshots == Count(s.resources, LiveSnapshots)
            && s.refCount == LiveRefs(s.resources)
  {
    var s := Run(NewStore(maxIterators, maxSnapshots), steps);
    RunKeeps(NewStore(maxIterators, maxSnapshots), steps);
    QuietCounts(s.resources);
  }

  // ----- Closing twice -----

  /** How far a resource has come; a retried compare-and-swap goes back to the start. */
  function Rank(p: Phase): nat {
    match p
    case Starting => 0
    case Cleared => 0
    case Loaded(_) => 0
    case Referenced => 1
    case Refusing => 4
    case Refused => 5
    case Live => 2
    case Uncounting => 4
    case Releasing => 5
    case Gone => 6
  }

  lemma NextProgress(s: Store, step: Step, i: nat)
    requires i < |s.resources|
    ensures i < |Next(s, step).resources| && Next(s, step).resources[i].kind == s.resources[i].kind
    ensures Rank(Next(s, step).resources[i].phase) >= Rank(s.resources[i].phase)
  {
  }

  lemma {:induction false} RunProgress(s: Store, steps: seq<Step>, i: nat)
    requires i < |s.resources|
    ensures i < |Run(s, steps).resources| && Rank(Run(s, steps).resources[i].phase) >= Rank(s.resources[i].phase)
    decreases |steps|
  {
    if steps != [] {
      hide Next, Rank;
      NextProgress(s, steps[0], i);
      RunProgress(Next(s, steps[0]), steps[1..], i);
    }
  }

  /** Once a resource has been closed, closing it again, however much later, does nothing at all. */
  lemma CloseOnce(s: Store, i: nat, steps: seq<Step>)
    requires i < |s.resources| && s.resources[i].phase == Live
    ensures var later := Run(Next(s, Close(i)), steps); Next(later, Close(i)) == later
  {
    var closed := Next(s, Close(i));
    assert Rank(closed.resources[i].phase) >= 4;
    RunProgress(closed, steps, i);
  }
}
