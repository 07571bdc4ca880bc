/**
 What garbage collection may take from a run of versions (pkg/tree/version_manager.go).
 */
module Retention {
  import opened Types
  import opened Versions
  import opened Ledger
  import opened TreeMap

  /** What one collection may take, given the policy and the expired versions. */
  ghost predicate Allowed(l: Ledger, policy: Policy, n: nat, expired: set<Version>, gone: set<Version>) {
    gone == {} ||
    match policy
    case KeepCount => CountRetention(l.live - {0}, gone, n, l.top)
    case KeepTime => TimeRetention(l.live - {0}, gone, n, expired, l.top)
    case KeepAll => false
  }

  /** The step was carried out; a collection took what the policy allows. */
  ghost predicate Follows(l: Ledger, policy: Policy, n: nat, asked: Step, done: Step) {
    Matches(asked, done) && (asked.Collect? ==> Allowed(l, policy, n, asked.gone, done.gone))
  }

  ghost predicate FollowsAll(l: Ledger, policy: Policy, n: nat, asked: seq<Step>, done: seq<Step>)
    decreases |asked|
  {
    |asked| == |done| &&
    (asked == [] ||
     (Follows(l, policy, n, asked[0], done[0]) && FollowsAll(Next(l, done[0]), policy, n, asked[1..], done[1..])))
  }

  /** The live versions above `v`. */
  ghost function Above(live: set<Version>, v: Version): set<Version> {
    set w | w in live && w > v
  }

  /** A version that has been collected has at least `n` newer ones that have not. */
  ghost predicate NewestKept(l: Ledger, n: nat) {
    forall v | v in l.committed && v !in l.live :: |Above(l.live, v)| >= n
  }

  lemma Subset(a: set<Version>, b: set<Version>)
    requires a <= b
    ensures |a| <= |b|
  {
    assert b == a + (b - a);
  }

  /** None of the newest `n` committed versions has been collected. */
  lemma NewestIsLive(l: Ledger, n: nat, v: Version)
    requires NumbersOk(l) && NewestKept(l, n) && v in l.committed && |Above(l.committed.Keys, v)| < n
    ensures v in l.live
  {
    if v !in l.live {
      Subset(Above(l.live, v), Above(l.committed.Keys, v));
    }
  }

  /** Versions that stay are above whatever is collected. */
  lemma CollectKeepsNewest(l: Ledger, n: nat, gone: set<Version>)
    requires NumbersOk(l) && NewestKept(l, n) && CountRetention(l.live - {0}, gone, n, l.top)
    ensures NewestKept(Next(l, Collect(gone)), n)
  {
    var m := Next(l, Collect(gone));
    assert m.live == l.live - gone;
    forall v | v in m.committed && v !in m.live
      ensures |Above(m.live, v)| >= n
    {
      StayAbove(l.live, gone, n, l.top, v);
    }
  }

  lemma StayAbove(live: set<Version>, gone: set<Version>, n: nat, top: Version, v: Version)
    requires CountRetention(live - {0}, gone, n, top) && (v in gone || |Above(live, v)| >= n)
    ensures |Above(live - gone, v)| >= n
  {
    var c := live - {0};
    if w :| w in gone && w >= v {
      EnoughStay(c, gone, n, top);
      assert forall x | x in c - gone :: w < x;
      assert c - gone <= Above(live - gone, v);
      Subset(c - gone, Above(live - gone, v));
    } else {
      assert Above(live - gone, v) == Above(live, v);
    }
  }

  lemma EnoughStay(c: set<Version>, gone: set<Version>, n: nat, top: Version)
    requires CountRetention(c, gone, n, top) && gone != {}
    ensures |c - gone| >= n
  {
    assert c == gone + (c - gone);
  }

  lemma OtherKeepsNewest(l: Ledger, n: nat, s: Step)
    requires NumbersOk(l) && NewestKept(l, n) && !s.Collect?
    ensures NewestKept(Next(l, s), n)
  {
    hide TwinIn, Sealed, Above;
    var m := Next(l, s);
    forall v | v in m.committed && v !in m.live
      ensures |Above(m.live, v)| >= n
    {
      assert v in l.committed && v !in l.live;
      MoreAbove(l.live, m.live, v);
    }
  }

  lemma MoreAbove(a: set<Version>, b: set<Version>, v: Version)
    requires a <= b
    ensures |Above(a, v)| <= |Above(b, v)|
  {
    Subset(Above(a, v), Above(b, v));
  }

  lemma StepKeepsNewest(l: Ledger, n: nat, asked: Step, done: Step)
    requires Wellformed(l) && NewestKept(l, n) && Follows(l, KeepCount, n, asked, done)
    ensures NewestKept(Next(l, done), n)
  {
    hide NewestKept, Next, CountRetention, Wellformed, NumbersOk;
    WellformedNumbers(l);
    if done.Collect? {
      if done.gone == {} { NothingGone(l); } else { CollectKeepsNewest(l, n, done.gone); }
    } else {
      OtherKeepsNewest(l, n, done);
    }
  }

  /** Under the count policy no run collects any of the newest `n` versions. */
  lemma {:induction false} RunKeepsNewest(l: Ledger, n: nat, asked: seq<Step>, done: seq<Step>)
    requires Wellformed(l) && NewestKept(l, n) && FollowsAll(l, KeepCount, n, asked, done)
    ensures NewestKept(Run(l, done), n)
    decreases |asked|
  {
    if asked != [] {
      hide NewestKept, Next, Run, Wellformed, NumbersOk, Follows;
      StepKeepsNewest(l, n, asked[0], done[0]);
      NextWellformed(l, done[0]);
      RunKeepsNewest(Next(l, done[0]), n, asked[1..], done[1..]);
      RunUnfold(l, done);
    } else {
      assert done == [];
    }
  }

  lemma NothingGone(l: Ledger)
    ensures Next(l, Collect({})) == l
  {
    assert l.live - ({} - {0, l.top}) == l.live;
  }

  lemma NothingCollectedYet(n: nat)
    ensures NewestKept(INITIAL, n)
  {
  }
}
