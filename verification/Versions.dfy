/**
 Version numbers, their lifecycle and their retention (pkg/tree/version_manager.go).
 */
module Versions {
  import opened Types

  datatype Status = Committed | Aborted

  datatype VersionInfo = VersionInfo(rootHash: Hash, parent: Version, status: Status)

  /** A version under construction; `updater` is unset until the first operation. */
  datatype PendingVersion<U> = PendingVersion(parent: Version, updater: Option<U>, operations: nat)

  datatype Policy = KeepCount | KeepTime | KeepAll

  datatype GcResult = Removed(versions: seq<Version>) | SlicePanic

  type VersionMap = map<Version, VersionInfo>

  /** The committed versions other than the initial one. */
  function CommittedOf(versions: VersionMap): set<Version> {
    set v | v in versions && versions[v].status == Committed && v != 0
  }

  ghost predicate Increasing(q: seq<Version>) {
    forall i, j | 0 <= i < j < |q| :: q[i] < q[j]
  }

  function Elements(q: seq<Version>): set<Version> {
    set v | v in q
  }

  lemma Appended(q: seq<Version>, v: Version)
    ensures Elements(q + [v]) == Elements(q) + {v}
    ensures Increasing(q) && (forall w | w in Elements(q) :: w < v) ==> Increasing(q + [v])
  {
    assert forall w :: w in q + [v] <==> w in q || w == v;
    assert forall i | 0 <= i < |q| :: q[i] in Elements(q);
  }

  /** The elements of a set in increasing order. */
  method SortVersions(s: set<Version>) returns (q: seq<Version>)
    ensures Increasing(q) && Elements(q) == s && |q| == |s|
  {
    q := [];
    var rest := s;
    while rest != {}
      invariant rest <= s && Elements(q) == s - rest && |q| + |rest| == |s|
      invariant Increasing(q) && forall w, v | w in Elements(q) && v in rest :: w < v
      decreases |rest|
    {
      var least := Least(rest);
      Appended(q, least);
      q := q + [least];
      rest := rest - {least};
    }
  }

  method Least(s: set<Version>) returns (m: Version)
    requires s != {}
    ensures m in s && forall v | v in s :: m <= v
  {
    m :| m in s;
    var rest := s - {m};
    while rest != {}
      invariant m in s && rest <= s && forall v | v in s && v !in rest :: m <= v
      decreases |rest|
    {
      var v :| v in rest;
      if v < m { m := v; }
      rest := rest - {v};
    }
  }

  /** The members of `q` that are in `s`, in the same order. */
  method Select(q: seq<Version>, s: set<Version>) returns (r: seq<Version>)
    requires Increasing(q)
    ensures Increasing(r) && Elements(r) == Elements(q) * s && |r| <= |q|
  {
    r := [];
    for i := 0 to |q|
      invariant Increasing(r) && Elements(r) == Elements(q[..i]) * s && |r| <= i
    {
      assert q[..i + 1] == q[..i] + [q[i]];
      Appended(q[..i], q[i]);
      assert forall w | w in Elements(r) :: w in q[..i] && w < q[i];
      Appended(r, q[i]);
      if q[i] in s {
        r := r + [q[i]];
      }
    }
    assert q[..|q|] == q;
  }

  // ----- Retention -----

  /** Every member of `aged` is below every member of `rest`. */
  ghost predicate OlderThan(aged: set<Version>, rest: set<Version>) {
    forall r, k | r in aged && k in rest :: r < k
  }

  lemma {:induction false} ElementsSize(q: seq<Version>)
    requires Increasing(q)
    ensures |Elements(q)| == |q|
    decreases |q|
  {
    if q != [] {
      var init, last := q[..|q| - 1], q[|q| - 1];
      assert q == init + [last];
      Appended(init, last);
      ElementsSize(init);
    }
  }

  /** The first `n` of a sorted list are its `n` oldest. */
  lemma OldestFirst(q: seq<Version>, n: nat)
    requires Increasing(q) && n <= |q|
    ensures Elements(q[..n]) <= Elements(q) && |Elements(q[..n])| == n
    ensures OlderThan(Elements(q[..n]), Elements(q) - Elements(q[..n]))
  {
    ElementsSize(q[..n]);
    forall r, k | r in Elements(q[..n]) && k in Elements(q) - Elements(q[..n])
      ensures r < k
    {
      var i :| 0 <= i < n && q[i] == r;
      var j :| 0 <= j < |q| && q[j] == k;
      assert forall m | 0 <= m < n :: q[m] in Elements(q[..n]);
    }
  }

  /** What the count policy may remove: the newest `n`, and always the current version, stay. */
  ghost predicate CountRetention(c: set<Version>, gone: set<Version>, n: nat, current: Version) {
    gone <= c && current !in gone && OlderThan(gone, c - gone) &&
    |c - gone| == if |c| <= n then |c| else if n == 0 then 1 else n
  }

  /** What the time policy may remove: expired versions, oldest first, never going below `n`. */
  ghost predicate TimeRetention(c: set<Version>, gone: set<Version>, n: nat, expired: set<Version>, current: Version) {
    gone <= c * expired && current !in gone && OlderThan(gone, c * expired - gone - {current}) &&
    |c - gone| >= n && (|c - expired| >= n ==> gone == c * expired - {current})
  }

  /** Drop the current version from a list of victims. */
  method Spare(q: seq<Version>, current: Version) returns (r: seq<Version>)
    ensures Elements(r) == Elements(q) - {current}
  {
    r := [];
    for i := 0 to |q|
      invariant Elements(r) == Elements(q[..i]) - {current}
    {
      assert q[..i + 1] == q[..i] + [q[i]];
      Appended(q[..i], q[i]);
      Appended(r, q[i]);
      if q[i] != current { r := r + [q[i]]; }
    }
    assert q[..|q|] == q;
  }

  method CountVictims(committed: seq<Version>, n: nat, current: Version) returns (r: seq<Version>)
    requires Increasing(committed)
    requires committed != [] ==> current in committed && forall v | v in committed :: v <= current
    ensures CountRetention(Elements(committed), Elements(r), n, current)
  {
    var c := Elements(committed);
    ElementsSize(committed);
    if |committed| <= n {
      assert Elements([]) == {};
      assert c - {} == c;
      return [];
    }
    var k := |committed| - n;
    OldestFirst(committed, k);
    r := Spare(committed[..k], current);
    CountSpared(c, Elements(committed[..k]), n, current);
  }

  lemma CountSpared(c: set<Version>, aged: set<Version>, n: nat, current: Version)
    requires aged <= c && OlderThan(aged, c - aged) && |aged| == |c| - n && n < |c|
    requires current in c && forall v | v in c :: v <= current
    ensures CountRetention(c, aged - {current}, n, current)
  {
    var gone := aged - {current};
    Disjointly(c, aged);
    if current in aged {
      assert c - aged == {};
      assert aged == c;
      assert c - gone == {current};
    } else {
      assert gone == aged;
    }
  }

  lemma Disjointly(c: set<Version>, aged: set<Version>)
    requires aged <= c
    ensures |c - aged| == |c| - |aged|
  {
    assert c == aged + (c - aged);
  }

  method TimeVictims(committed: seq<Version>, n: nat, expired: set<Version>, current: Version) returns (r: GcResult)
    requires Increasing(committed)
    ensures r == SlicePanic <==> |committed| < n
    ensures r.Removed? ==> TimeRetention(Elements(committed), Elements(r.versions), n, expired, current)
  {
    var c := Elements(committed);
    ElementsSize(committed);
    var aged := Select(committed, expired);
    ElementsSize(aged);
    Disjointly(c, Elements(aged));
    if |committed| - |aged| < n {
      if |committed| < n { return SlicePanic; }
      var k := |committed| - n;
      OldestFirst(aged, k);
      var left := Spare(aged[..k], current);
      TimeSpared(c, Elements(aged[..k]), n, expired, current);
      return Removed(left);
    }
    var all := Spare(aged, current);
    TimeSpared(c, Elements(aged), n, expired, current);
    return Removed(all);
  }

  lemma TimeSpared(c: set<Version>, aged: set<Version>, n: nat, expired: set<Version>, current: Version)
    requires aged <= c * expired && OlderThan(aged, c * expired - aged)
    requires |c| - |aged| >= n && (|c - expired| >= n ==> aged == c * expired)
    ensures TimeRetention(c, aged - {current}, n, expired, current)
  {
    hide OlderThan;
    var gone := aged - {current};
    Disjointly(c, gone);
    if current in aged {
      Disjointly(aged, {current});
    } else {
      assert gone == aged;
    }
    assert c * expired - gone - {current} <= c * expired - aged;
    OlderStill(aged, c * expired - aged, gone, c * expired - gone - {current});
  }

  lemma OlderStill(a: set<Version>, b: set<Version>, a': set<Version>, b': set<Version>)
    requires OlderThan(a, b) && a' <= a && b' <= b
    ensures OlderThan(a', b')
  {
  }

  // ----- The version manager -----

  /** Numbers are in one place each and below the latest; the committed version is the newest committed one. */
  ghost predicate ManagerOk(versions: VersionMap, pending: set<Version>, latest: Version, current: Version) {
    latest <= MAX_VERSION && versions.Keys !! pending &&
    current in versions && versions[current].status == Committed &&
    (forall v | v in versions || v in pending :: v <= latest) &&
    (forall v | v in versions && versions[v].status == Committed :: v <= current)
  }

  lemma NewestIsCurrent(versions: VersionMap, pending: set<Version>, latest: Version, current: Version)
    requires ManagerOk(versions, pending, latest, current)
    ensures CommittedOf(versions) != {} ==> current in CommittedOf(versions)
    ensures forall v | v in CommittedOf(versions) :: v <= current
  {
  }

  lemma ForgettingIsSafe(versions: VersionMap, pending: set<Version>, latest: Version, current: Version,
                         gone: set<Version>)
    requires ManagerOk(versions, pending, latest, current) && current !in gone
    ensures ManagerOk(versions - gone, pending, latest, current)
  {
  }

  /** The versions that a policy gives up. */
  method PickVictims(c: set<Version>, policy: Policy, n: nat, expired: set<Version>, current: Version)
    returns (r: GcResult)
    requires c != {} ==> current in c
    requires forall v | v in c :: v <= current
    ensures r == SlicePanic <==> policy == KeepTime && |c| < n
    ensures r.Removed? ==> Elements(r.versions) <= c - {current}
    ensures r.Removed? ==> match policy
            case KeepCount => CountRetention(c, Elements(r.versions), n, current)
            case KeepTime => TimeRetention(c, Elements(r.versions), n, expired, current)
            case KeepAll => r.versions == []
  {
    hide CountRetention, TimeRetention, Increasing;
    if policy == KeepAll { return Removed([]); }
    var committed := SortVersions(c);
    assert forall v | v in committed :: v in Elements(committed);
    if policy == KeepCount {
      assert committed != [] ==> committed[0] in Elements(committed);
      var victims := CountVictims(committed, n, current);
      CountVictimsAreOld(c, Elements(victims), n, current);
      r := Removed(victims);
    } else {
      r := TimeVictims(committed, n, expired, current);
      if r.Removed? { TimeVictimsAreOld(c, Elements(r.versions), n, expired, current); }
    }
  }

  class VersionManager<U> {
    var versions: VersionMap
    var pending: map<Version, PendingVersion<U>>
    var latestVersion: Version
    var committedVersion: Version
    var policy: Policy
    var minVersionsToKeep: nat

    ghost predicate Valid()
      reads `versions, `pending, `latestVersion, `committedVersion
    {
      ManagerOk(versions, pending.Keys, latestVersion, committedVersion)
    }

    constructor ()
      ensures Valid() && versions == map[0 := VersionInfo(ZERO, 0, Committed)] && pending == map[]
      ensures latestVersion == 0 && committedVersion == 0 && policy == KeepCount && minVersionsToKeep == 100
    {
      versions, pending := map[0 := VersionInfo(ZERO, 0, Committed)], map[];
      latestVersion, committedVersion := 0, 0;
      policy, minVersionsToKeep := KeepCount, 100;
    }

    /** A version manager over versions found in storage. */
    constructor Restored(versions: VersionMap, top: Version)
      requires ManagerOk(versions, {}, top, top)
      ensures Valid() && this.versions == versions && pending == map[] && latestVersion == top
      ensures committedVersion == top && policy == KeepCount && minVersionsToKeep == 100
    {
      this.versions, pending := versions, map[];
      latestVersion, committedVersion := top, top;
      policy, minVersionsToKeep := KeepCount, 100;
    }

    /** Open a version over a committed parent, under a number never used before. */
    method Begin(parent: Version) returns (r: Option<Version>)
      requires Valid()
      modifies `pending, `latestVersion
      ensures Valid()
      ensures r.Some? <==>
          parent in versions && versions[parent].status == Committed && old(latestVersion) < MAX_VERSION
      ensures r.None? ==> pending == old(pending) && latestVersion == old(latestVersion)
      ensures r.Some? ==>
          r.value == latestVersion == old(latestVersion) + 1 && r.value !in old(pending) && r.value !in versions
      ensures r.Some? ==> pending == old(pending)[r.value := PendingVersion(parent, None, 0)]
    {
      if parent !in versions || versions[parent].status != Committed { return None; }
      if latestVersion == MAX_VERSION { return None; }
      var newVersion := latestVersion + 1;
      pending := pending[newVersion := PendingVersion(parent, None, 0)];
      latestVersion := newVersion;
      return Some(newVersion);
    }

    /** Close a pending version as committed. */
    method Commit(version: Version, rootHash: Hash) returns (ok: bool)
      requires Valid()
      modifies `pending, `versions, `committedVersion
      ensures Valid() && ok == (version in old(pending))
      ensures !ok ==> pending == old(pending) && versions == old(versions) && committedVersion == old(committedVersion)
      ensures ok ==> pending == old(pending) - {version}
      ensures ok ==>
          versions == old(versions)[version := VersionInfo(rootHash, old(pending)[version].parent, Committed)]
      ensures ok ==> committedVersion == if version > old(committedVersion) then version else old(committedVersion)
    {
      if version !in pending { return false; }
      versions := versions[version := VersionInfo(rootHash, pending[version].parent, Committed)];
      pending := pending - {version};
      if version > committedVersion { committedVersion := version; }
      return true;
    }

    /** Close a pending version as aborted. */
    method Abort(version: Version) returns (ok: bool)
      requires Valid()
      modifies `pending, `versions
      ensures Valid() && ok == (version in old(pending))
      ensures !ok ==> pending == old(pending) && versions == old(versions)
      ensures ok ==> pending == old(pending) - {version}
      ensures ok ==> versions == old(versions)[version := VersionInfo(ZERO, old(pending)[version].parent, Aborted)]
    {
      if version !in pending { return false; }
      versions := versions[version := VersionInfo(ZERO, pending[version].parent, Aborted)];
      pending := pending - {version};
      return true;
    }

    /** Keep the state of a version's updater, and count a successful operation if there was one. */
    method SetPending(version: Version, updater: U, operations: nat)
      requires Valid() && version in pending
      modifies `pending
      ensures Valid()
      ensures pending ==
          old(pending)[version := PendingVersion(old(pending)[version].parent, Some(updater), operations)]
    {
      assert pending[version := PendingVersion(pending[version].parent, Some(updater), operations)].Keys ==
        pending.Keys;
      pending := pending[version := PendingVersion(pending[version].parent, Some(updater), operations)];
    }

    method SetRetentionPolicy(policy: Policy, minVersions: nat)
      modifies `policy, `minVersionsToKeep
      ensures this.policy == policy && minVersionsToKeep == minVersions
    {
      this.policy, minVersionsToKeep := policy, minVersions;
    }

    /** Forget old committed versions; `expired` are those older than the maximum age. */
    method CollectGarbage(expired: set<Version>) returns (r: GcResult)
      requires Valid()
      modifies `versions
      ensures Valid()
      ensures r == SlicePanic <==> policy == KeepTime && |CommittedOf(old(versions))| < minVersionsToKeep
      ensures r == SlicePanic ==> versions == old(versions)
      ensures r.Removed? ==> versions == old(versions) - Elements(r.versions)
      ensures r.Removed? ==> Elements(r.versions) <= CommittedOf(old(versions)) - {committedVersion}
      ensures r.Removed? ==> match policy
              case KeepCount => CountRetention(CommittedOf(old(versions)), Elements(r.versions), minVersionsToKeep,
                                               committedVersion)
              case KeepTime => TimeRetention(CommittedOf(old(versions)), Elements(r.versions), minVersionsToKeep,
                                             expired, committedVersion)
              case KeepAll => r.versions == []
    {
      hide CountRetention, TimeRetention, CommittedOf, Elements, ManagerOk;
      NewestIsCurrent(versions, pending.Keys, latestVersion, committedVersion);
      r := PickVictims(CommittedOf(versions), policy, minVersionsToKeep, expired, committedVersion);
      if r == SlicePanic { return; }
      ForgettingIsSafe(versions, pending.Keys, latestVersion, committedVersion, Elements(r.versions));
      versions := versions - Elements(r.versions);
    }

    /** Forget one version that is neither current nor a parent. */
    method RemoveVersion(version: Version) returns (ok: bool)
      requires Valid()
      modifies `versions
      ensures Valid()
      ensures ok <==> && version in old(versions) && version != committedVersion
                      && forall v | v in old(versions) && v != version :: old(versions)[v].parent != version
      ensures versions == if ok then old(versions) - {version} else old(versions)
    {
      if version !in versions || version == committedVersion { return false; }
      if exists v :: v in versions && v != version && versions[v].parent == version { return false; }
      versions := versions - {version};
      return true;
    }
  }

  lemma CountVictimsAreOld(c: set<Version>, gone: set<Version>, n: nat, current: Version)
    requires CountRetention(c, gone, n, current)
    ensures gone <= c - {current}
  {
  }

  lemma TimeVictimsAreOld(c: set<Version>, gone: set<Version>, n: nat, expired: set<Version>, current: Version)
    requires TimeRetention(c, gone, n, expired, current)
    ensures gone <= c - {current}
  {
  }
}
