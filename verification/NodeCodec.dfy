/**
 The byte encoding of nodes, in storage and in streams
 (pkg/codec/interface_encoders.go, pkg/codec/node.go, pkg/tree/codec_factory.go, pkg/codec/batch.go).
 */
module NodeCodec {
  import opened Types
  import opened Merkle
  import opened Nodes
  import opened KeyCodec

  const CHILD_SIZE := 42

  // ----- Encoding -----

  function EncodedChild(n: Nibble, c: Child): (b: Bytes)
    ensures |b| == CHILD_SIZE
  {
    [n] + c.hash + ToBytes(c.version, 8) + [if c.isLeaf then 1 else 0]
  }

  /** The children under the given nibbles, in that order. */
  function EncodedList(children: map<Nibble, Child>, q: seq<Nibble>): (b: Bytes)
    requires forall n | n in q :: n in children
    ensures |b| == CHILD_SIZE * |q|
  {
    if q == [] then [] else EncodedList(children, q[..|q| - 1]) + EncodedChild(q[|q| - 1], children[q[|q| - 1]])
  }

  ghost predicate Ascending(q: seq<Nibble>) {
    forall i, j | 0 <= i < j < |q| :: q[i] < q[j]
  }

  lemma AppendAscending(q: seq<Nibble>, n: Nibble)
    requires Ascending(q) && forall x | x in q :: x < n
    ensures Ascending(q + [n])
  {
    assert forall i | 0 <= i < |q| :: q[i] in q;
  }

  /** The nibbles of `s` below `n`, in increasing order. */
  function InOrder(s: set<Nibble>, n: nat): (q: seq<Nibble>)
    requires n <= 16
    ensures forall x | x in q :: x in s && x < n
    ensures forall x | x in s && x < n :: x in q
    ensures Ascending(q)
  {
    if n == 0 then []
    else
      var q := InOrder(s, n - 1);
      if n - 1 in s then AppendAscending(q, n - 1); q + [n - 1] else q
  }

  /** Two increasing lists of the same nibbles are the same list. */
  lemma {:induction false} OrderIsUnique(p: seq<Nibble>, q: seq<Nibble>)
    requires Ascending(p) && Ascending(q) && forall x :: x in p <==> x in q
    ensures p == q
    decreases |p|
  {
    assert (p != [] ==> p[0] in p) && (q != [] ==> q[0] in q);
    if p != [] && q != [] {
      var x, y := p[|p| - 1], q[|q| - 1];
      LastIsLargest(p, y);
      LastIsLargest(q, x);
      WithoutLast(p, q);
      OrderIsUnique(p[..|p| - 1], q[..|q| - 1]);
      assert p == p[..|p| - 1] + [x] && q == q[..|q| - 1] + [x];
    }
  }

  lemma WithoutLast(p: seq<Nibble>, q: seq<Nibble>)
    requires Ascending(p) && Ascending(q) && p != [] && q != [] && p[|p| - 1] == q[|q| - 1]
    requires forall x :: x in p <==> x in q
    ensures var p', q' := p[..|p| - 1], q[..|q| - 1];
            Ascending(p') && Ascending(q') && forall x :: x in p' <==> x in q'
  {
    hide Ascending;
    LastIsNew(p);
    LastIsNew(q);
    var p', q' := p[..|p| - 1], q[..|q| - 1];
    forall x
      ensures x in p' <==> x in q'
    {
      InitOrLast(p, x);
      InitOrLast(q, x);
    }
  }

  lemma InitOrLast(q: seq<Nibble>, x: Nibble)
    requires q != []
    ensures x in q <==> x in q[..|q| - 1] || x == q[|q| - 1]
  {
    assert q == q[..|q| - 1] + [q[|q| - 1]];
  }

  lemma LastIsLargest(p: seq<Nibble>, y: Nibble)
    requires Ascending(p) && y in p
    ensures y <= p[|p| - 1]
  {
  }

  function NibbleSet(q: seq<Nibble>): set<Nibble> {
    set x | x in q
  }

  lemma NibbleSetGrows(q: seq<Nibble>, n: Nibble)
    ensures NibbleSet(q + [n]) == NibbleSet(q) + {n}
    ensures n !in q ==> |NibbleSet(q + [n])| == |NibbleSet(q)| + 1
  {
    assert forall x :: x in q + [n] <==> x in q || x == n;
    assert NibbleSet(q + [n]) == NibbleSet(q) + {n};
  }

  /** An increasing list is as long as the set of its nibbles, which has at most 16. */
  lemma {:induction false} AscendingSize(q: seq<Nibble>)
    requires Ascending(q)
    ensures |NibbleSet(q)| == |q|
    ensures q != [] ==> q[|q| - 1] >= |q| - 1
    decreases |q|
  {
    hide NibbleSet, Ascending;
    if q != [] {
      var p, n := q[..|q| - 1], q[|q| - 1];
      LastIsNew(q);
      AscendingSize(p);
      NibbleSetGrows(p, n);
      assert q == p + [n];
    } else {
      NoNibbles();
    }
  }

  lemma LastIsNew(q: seq<Nibble>)
    requires Ascending(q) && q != []
    ensures var p, n := q[..|q| - 1], q[|q| - 1];
            Ascending(p) && n !in p && (p != [] ==> p[|p| - 1] < n)
  {
  }

  lemma NoNibbles()
    ensures NibbleSet([]) == {}
  {
  }

  /** The children of a node in nibble order, after their number. */
  function EncodedInternal(children: map<Nibble, Child>): Bytes {
    var q := InOrder(children.Keys, 16);
    [if |q| <= 16 then |q| else 0] + EncodedList(children, q)
  }

  function EncodedNode(d: NodeData): Bytes {
    match d
    case LeafData(k, vh, _, _) => [LEAF_TAG] + k + vh
    case InternalData(children, _) => [INTERNAL_TAG] + EncodedInternal(children)
  }

  lemma InternalSize(children: map<Nibble, Child>)
    ensures |children| == |InOrder(children.Keys, 16)| <= 16
    ensures |EncodedInternal(children)| == 1 + CHILD_SIZE * |children|
    ensures EncodedInternal(children)[0] == |children|
  {
    var q := InOrder(children.Keys, 16);
    AscendingSize(q);
    assert children.Keys == NibbleSet(q);
    assert |children.Keys| == |children|;
  }

  /**
   The record of a child, byte by byte: its nibble, its hash in 32 bytes, its version in eight, and
   whether it is a leaf.
   */
  lemma ChildLayout(n: Nibble, c: Child)
    ensures var b := EncodedChild(n, c);
            && |b| == 42 && b[0] == n && b[1..33] == c.hash && FromBytes(b[33..41]) == c.version
            && b[41] == if c.isLeaf then 1 else 0
  {
    hide ToBytes, FromBytes, Power256;
    var b := EncodedChild(n, c);
    Widths();
    NumberRoundTrip(c.version, 8);
    assert b[1..33] == c.hash && b[33..41] == ToBytes(c.version, 8);
  }

  lemma {:induction false} ListAt(children: map<Nibble, Child>, q: seq<Nibble>, i: nat)
    requires i < |q| && forall n | n in q :: n in children
    ensures EncodedList(children, q)[42 * i..42 * (i + 1)] == EncodedChild(q[i], children[q[i]])
    decreases |q|
  {
    hide EncodedChild;
    var p := q[..|q| - 1];
    var b, c := EncodedList(children, q), EncodedList(children, p);
    if i < |p| {
      ListAt(children, p, i);
      assert b[42 * i..42 * (i + 1)] == c[42 * i..42 * (i + 1)];
    } else {
      assert b[42 * i..42 * (i + 1)] == EncodedChild(q[i], children[q[i]]);
    }
  }

  /** The encoding of a node, byte by byte: a leaf is 1, key and value hash; an internal node 0, the number of its
      children and their records in nibble order. */
  lemma NodeLayout(d: NodeData)
    ensures var b := EncodedNode(d);
            match d
            case LeafData(k, vh, _, _) => |b| == 65 && b[0] == 1 && b[1..33] == k && b[33..65] == vh
            case InternalData(children, _) =>
              var q := InOrder(children.Keys, 16);
              && |b| == 2 + 42 * |children| && b[0] == 0 && b[1] == |children| == |q|
              && forall i | 0 <= i < |q| ::
                   q[i] in children && b[2 + 42 * i..2 + 42 * (i + 1)] == EncodedChild(q[i], children[q[i]])
  {
    hide EncodedChild, EncodedList, InOrder;
    if d.InternalData? {
      InternalSize(d.children);
      KeysInOrder(d.children);
      var b, q := EncodedNode(d), InOrder(d.children.Keys, 16);
      var list := EncodedList(d.children, q);
      assert b[2..] == list;
      forall i | 0 <= i < |q|
        ensures q[i] in d.children && b[2 + 42 * i..2 + 42 * (i + 1)] == EncodedChild(q[i], d.children[q[i]])
      {
        assert q[i] in q;
        ListAt(d.children, q, i);
        assert b[2 + 42 * i..2 + 42 * (i + 1)] == list[42 * i..42 * (i + 1)];
      }
    } else {
      assert EncodedNode(d)[1..33] == d.key && EncodedNode(d)[33..65] == d.valueHash;
    }
  }

  // ----- Sorting in place -----

  ghost predicate Distinct(q: seq<Nibble>) {
    forall i, j | 0 <= i < j < |q| :: q[i] != q[j]
  }

  /** The first `n` nibbles are below everything after them. */
  ghost predicate SortedUpTo(q: seq<Nibble>, n: int) {
    forall i, j | 0 <= i < j < |q| && i < n :: q[i] < q[j]
  }

  lemma SwapKeeps(q: seq<Nibble>, i: nat, j: nat)
    requires i < j < |q| && Distinct(q)
    ensures var r := q[i := q[j]][j := q[i]]; Distinct(r) && NibbleSet(r) == NibbleSet(q)
    ensures SortedUpTo(q, i) ==> SortedUpTo(q[i := q[j]][j := q[i]], i)
  {
    var r := q[i := q[j]][j := q[i]];
    forall x
      ensures x in r <==> x in q
    {
      if x in q {
        var k :| 0 <= k < |q| && q[k] == x;
        assert r[if k == i then j else if k == j then i else k] == x;
      }
      if x in r {
        var k :| 0 <= k < |r| && r[k] == x;
        assert q[if k == i then j else if k == j then i else k] == x;
      }
    }
  }

  /** Exchange sort, as the encoder does it. */
  method SortNibbles(a: array<Nibble>)
    requires Distinct(a[..])
    modifies a
    ensures Ascending(a[..]) && NibbleSet(a[..]) == old(NibbleSet(a[..]))
  {
    hide NibbleSet;
    var i := 0;
    while i < a.Length - 1
      invariant 0 <= i <= a.Length && (a.Length > 0 ==> i < a.Length)
      invariant Distinct(a[..]) && SortedUpTo(a[..], i) && NibbleSet(a[..]) == old(NibbleSet(a[..]))
    {
      var j := i + 1;
      while j < a.Length
        invariant i < j <= a.Length
        invariant Distinct(a[..]) && SortedUpTo(a[..], i) && NibbleSet(a[..]) == old(NibbleSet(a[..]))
        invariant forall k | i < k < j :: a[i] < a[k]
      {
        if a[i] > a[j] {
          ghost var q := a[..];
          SwapKeeps(q, i, j);
          a[i], a[j] := a[j], a[i];
          assert a[..] == q[i := q[j]][j := q[i]];
        } else {
          assert a[..][i] != a[..][j];
        }
        j := j + 1;
      }
      SortedNext(a[..], i);
      i := i + 1;
    }
    assert Ascending(a[..]);
  }

  lemma SortedNext(q: seq<Nibble>, i: nat)
    requires i < |q| && SortedUpTo(q, i) && forall k | i < k < |q| :: q[i] < q[k]
    ensures SortedUpTo(q, i + 1)
  {
  }

  // ----- Writing -----

  method PutChild(buf: array<Byte>, at: nat, n: Nibble, c: Child)
    requires at + CHILD_SIZE <= buf.Length
    modifies buf
    ensures buf[at..at + CHILD_SIZE] == EncodedChild(n, c)
    ensures forall i | 0 <= i < buf.Length && !(at <= i < at + CHILD_SIZE) :: buf[i] == old(buf[i])
  {
    hide ToBytes;
    buf[at] := n;
    forall i | 0 <= i < 32 { buf[at + 1 + i] := c.hash[i]; }
    ghost var head := buf[at..at + 33];
    assert head == [n] + c.hash;
    PutNumber(buf, at + 33, c.version, 8);
    ghost var number := buf[at + 33..at + 41];
    buf[at + 41] := if c.isLeaf then 1 else 0;
    assert buf[at..at + 33] == head && buf[at + 33..at + 41] == number;
    assert buf[at..at + CHILD_SIZE] == buf[at..at + 33] + buf[at + 33..at + 41] + [buf[at + 41]];
  }

  /** Collect the nibbles in whatever order the map gives them, sort them, and write the children. */
  method EncodeInternalNode(children: map<Nibble, Child>) returns (r: Bytes)
    ensures r == EncodedInternal(children) && |r| == 1 + CHILD_SIZE * |children|
  {
    hide EncodedChild, Ascending, EncodedList, InOrder;
    InternalSize(children);
    var nibbles := SortedKeys(children.Keys);
    KeysInOrder(children);
    NoChildren(children);
    var buf := new Byte[1 + |nibbles| * CHILD_SIZE](_ => 0);
    buf[0] := |nibbles|;
    var offset, i := 1, 0;
    while i < |nibbles|
      invariant 0 <= i <= |nibbles| && offset == 1 + CHILD_SIZE * i
      invariant buf[0] == |nibbles| && buf[1..offset] == EncodedList(children, nibbles[..i])
    {
      ghost var head := buf[1..offset];
      PutChild(buf, offset, nibbles[i], children[nibbles[i]]);
      assert buf[1..offset] == head;
      assert buf[1..offset + CHILD_SIZE] == buf[1..offset] + buf[offset..offset + CHILD_SIZE];
      OneMoreChild(children, nibbles, i);
      offset, i := offset + CHILD_SIZE, i + 1;
    }
    assert nibbles[..i] == nibbles;
    r := buf[..offset];
    assert r == [buf[0]] + buf[1..offset];
  }

  lemma KeysInOrder(children: map<Nibble, Child>)
    ensures forall n | n in InOrder(children.Keys, 16) :: n in children
  {
  }

  lemma NoChildren(children: map<Nibble, Child>)
    ensures EncodedList(children, []) == []
  {
  }

  lemma OneMoreChild(children: map<Nibble, Child>, q: seq<Nibble>, i: nat)
    requires i < |q| && forall n | n in q :: n in children
    ensures EncodedList(children, q[..i + 1]) == EncodedList(children, q[..i]) + EncodedChild(q[i], children[q[i]])
  {
    hide EncodedChild;
    assert q[..i + 1][..i] == q[..i];
  }

  method SortedKeys(s: set<Nibble>) returns (q: seq<Nibble>)
    ensures q == InOrder(s, 16)
  {
    var collected: seq<Nibble> := [];
    var todo := s;
    while todo != {}
      invariant todo <= s && NibbleSet(collected) == s - todo && Distinct(collected)
    {
      var n :| n in todo;
      NibbleSetGrows(collected, n);
      assert n !in NibbleSet(collected);
      collected := collected + [n];
      todo := todo - {n};
    }
    var a := new Nibble[|collected|](i requires 0 <= i < |collected| => collected[i]);
    assert a[..] == collected;
    SortNibbles(a);
    q := a[..];
    assert forall x :: x in q <==> x in NibbleSet(q);
    OrderIsUnique(q, InOrder(s, 16));
  }

  method EncodeNode(d: NodeData) returns (r: Bytes)
    ensures r == EncodedNode(d)
    ensures |r| == if d.LeafData? then 65 else 2 + CHILD_SIZE * |d.children|
  {
    match d
    case LeafData(k, vh, _, _) =>
      r := [LEAF_TAG] + k + vh;
    case InternalData(children, _) =>
      var data := EncodeInternalNode(children);
      r := [INTERNAL_TAG] + data;
  }

  // ----- Reading -----

  function ParsedChild(b: Bytes): Child
    requires |b| == CHILD_SIZE
  {
    Child(b[1..33], ReadVersion(b[33..41]), b[41] == 1)
  }

  /** The children that a list of records describes; a record with a nibble above 15 spoils the list. */
  function ParsedList(b: Bytes, n: nat): Option<map<Nibble, Child>>
    requires |b| == CHILD_SIZE * n
  {
    if n == 0 then Some(map[])
    else
      var start := CHILD_SIZE * (n - 1);
      var nibble := b[start];
      match ParsedList(b[..start], n - 1)
      case None => None
      case Some(m) => if nibble > 15 then None else Some(m[nibble := ParsedChild(b[start..])])
  }

  function DecodedInternal(b: Bytes, version: Version): Option<NodeData> {
    if |b| < 1 || b[0] > 16 || |b| != 1 + CHILD_SIZE * b[0] then None
    else
      match ParsedList(b[1..], b[0])
      case None => None
      case Some(children) => Some(InternalData(children, version))
  }

  /** What stored bytes say; the version comes from the key. */
  function DecodedNode(b: Bytes, version: Version): Option<NodeData> {
    if |b| < 1 then None
    else if b[0] == LEAF_TAG then (if |b| != 65 then None else Some(LeafData(b[1..33], b[33..65], None, version)))
    else if b[0] == INTERNAL_TAG then DecodedInternal(b[1..], version)
    else None
  }

  lemma {:induction false} ListParses(b: Bytes, n: nat)
    requires |b| == 42 * n
    ensures ParsedList(b, n).Some? <==> forall i | 0 <= i < n :: b[42 * i] < 16
    decreases n
  {
    if n > 0 {
      var c := b[..42 * (n - 1)];
      ListParses(c, n - 1);
      assert forall i | 0 <= i < n - 1 :: c[42 * i] == b[42 * i];
      ParsedUnfold(b, n);
    }
  }

  lemma ParsedUnfold(b: Bytes, n: nat)
    requires n > 0 && |b| == 42 * n
    ensures ParsedList(b, n).Some? <==> ParsedList(b[..42 * (n - 1)], n - 1).Some? && b[42 * (n - 1)] < 16
  {
    hide ParsedChild;
  }

  /**
   Which bytes are a node: 65 of which the first is 1, or a 0, a number up to 16, and that many
   records with nibbles below 16.
   */
  lemma NodeParses(b: Bytes, version: Version)
    ensures var n: int := if |b| >= 2 then b[1] else 0;
            DecodedNode(b, version).Some? <==>
              || (|b| == 65 && b[0] == 1)
              || (|b| == 2 + 42 * n && b[0] == 0 && n <= 16 && forall i | 0 <= i < n :: b[2 + 42 * i] < 16)
  {
    hide ParsedList;
    var n: int := if |b| >= 2 then b[1] else 0;
    if |b| == 2 + 42 * n && b[0] == 0 && n <= 16 {
      var c := b[1..][1..];
      assert c == b[2..];
      ListParses(c, n);
      assert forall i | 0 <= i < n :: c[42 * i] == b[2 + 42 * i];
    }
  }

  lemma ChildRoundTrip(n: Nibble, c: Child)
    ensures ParsedChild(EncodedChild(n, c)) == c && EncodedChild(n, c)[0] == n
  {
    hide ToBytes, ReadVersion;
    var b := EncodedChild(n, c);
    assert b[1..33] == c.hash && b[33..41] == ToBytes(c.version, 8);
    VersionRoundTrip(c.version);
  }

  lemma ParsedMore(b: Bytes, c: Bytes, n: nat)
    requires |b| == CHILD_SIZE * n && |c| == CHILD_SIZE
    ensures ParsedList(b + c, n + 1) ==
            if ParsedList(b, n).None? || c[0] > 15 then None else Some(ParsedList(b, n).value[c[0] := ParsedChild(c)])
  {
    assert (b + c)[..CHILD_SIZE * n] == b && (b + c)[CHILD_SIZE * n..] == c && (b + c)[CHILD_SIZE * n] == c[0];
  }

  function Picked(children: map<Nibble, Child>, q: seq<Nibble>): map<Nibble, Child>
    requires forall n | n in q :: n in children
  {
    map n | n in q :: children[n]
  }

  lemma PickedMore(children: map<Nibble, Child>, p: seq<Nibble>, n: Nibble)
    requires n in children && forall n | n in p :: n in children
    ensures Picked(children, p + [n]) == Picked(children, p)[n := children[n]]
  {
  }

  lemma {:induction false} ListRoundTrip(children: map<Nibble, Child>, q: seq<Nibble>)
    requires forall n | n in q :: n in children
    ensures ParsedList(EncodedList(children, q), |q|) == Some(Picked(children, q))
    decreases |q|
  {
    if q != [] {
      hide EncodedChild, ParsedChild, ParsedList, Picked;
      var p, n := q[..|q| - 1], q[|q| - 1];
      assert q == p + [n];
      ListRoundTrip(children, p);
      ChildRoundTrip(n, children[n]);
      ParsedMore(EncodedList(children, p), EncodedChild(n, children[n]), |p|);
      PickedMore(children, p, n);
    } else {
      assert Picked(children, q) == map[];
    }
  }

  /** A node as decoding gives it back: a leaf has lost its value, and the version is that of the key. */
  function ReadBack(d: NodeData, version: Version): NodeData {
    match d
    case LeafData(k, vh, _, _) => LeafData(k, vh, None, version)
    case InternalData(children, _) => InternalData(children, version)
  }

  /** A stored node is read back as it was, under the version of its key and without the value of a leaf. */
  lemma NodeRoundTrip(d: NodeData, version: Version)
    ensures DecodedNode(EncodedNode(d), version) == Some(ReadBack(d, version))
  {
    hide ParsedList, EncodedList;
    match d
    case LeafData(k, vh, _, _) =>
      assert EncodedNode(d)[1..33] == k && EncodedNode(d)[33..65] == vh;
    case InternalData(children, _) =>
      InternalSize(children);
      var q := InOrder(children.Keys, 16);
      ListRoundTrip(children, q);
      var b := EncodedInternal(children);
      assert EncodedNode(d)[1..] == b && b[1..] == EncodedList(children, q);
      assert Picked(children, q) == children;
  }

  method ReadChild(data: Bytes, at: nat) returns (nibble: Byte, child: Child)
    requires at + CHILD_SIZE <= |data|
    ensures nibble == data[at] && child == ParsedChild(data[at..at + CHILD_SIZE])
  {
    hide ReadVersion, FromBytes;
    ghost var record := data[at..at + CHILD_SIZE];
    SliceOfSlice(data, at, at + CHILD_SIZE, 1, 33);
    SliceOfSlice(data, at, at + CHILD_SIZE, 33, 41);
    assert record[41] == data[at + 41];
    nibble := data[at];
    var version := GetNumber(data, at + 33, 8);
    NumberIsVersion(record[33..41]);
    child := Child(data[at + 1..at + 33], version, data[at + 41] == 1);
  }

  method DecodeInternalNode(data: Bytes, version: Version) returns (r: Option<NodeData>)
    ensures r == DecodedInternal(data, version)
  {
    hide ParsedChild, ParsedList;
    if |data| < 1 { return None; }
    var numChildren := data[0];
    if numChildren > 16 || |data| != 1 + numChildren * CHILD_SIZE { return None; }
    var children: map<Nibble, Child> := map[];
    ghost var b := data[1..];
    EmptyList(b);
    var offset, i := 1, 0;
    while i < numChildren
      invariant 0 <= i <= numChildren && offset == 1 + CHILD_SIZE * i
      invariant ParsedList(b[..offset - 1], i) == Some(children)
    {
      var nibble, child := ReadChild(data, offset);
      ListStep(b, i, numChildren);
      assert b[offset - 1..offset - 1 + CHILD_SIZE] == data[offset..offset + CHILD_SIZE];
      if nibble > 15 { return None; }
      children := children[nibble := child];
      offset, i := offset + CHILD_SIZE, i + 1;
    }
    assert b[..offset - 1] == b;
    return Some(InternalData(children, version));
  }

  lemma EmptyList(b: Bytes)
    ensures ParsedList(b[..0], 0) == Some(map[])
  {
  }

  /** One record more; once a list is spoiled it stays so. */
  lemma ListStep(b: Bytes, i: nat, n: nat)
    requires i < n && |b| == CHILD_SIZE * n
    ensures var start, end := CHILD_SIZE * i, CHILD_SIZE * (i + 1);
            && (b[start] > 15 ==> ParsedList(b, n) == None)
            && (ParsedList(b[..start], i).Some? && b[start] <= 15 ==>
                  ParsedList(b[..end], i + 1) ==
                    Some(ParsedList(b[..start], i).value[b[start] := ParsedChild(b[start..end])]))
  {
    hide ParsedChild, ParsedList;
    var start, end := CHILD_SIZE * i, CHILD_SIZE * (i + 1);
    ParsedMore(b[..start], b[start..end], i);
    assert b[..end] == b[..start] + b[start..end];
    if b[start] > 15 { Spoiled(b, i + 1, n); }
  }

  lemma {:induction false} Spoiled(b: Bytes, i: nat, n: nat)
    requires i <= n && |b| == CHILD_SIZE * n && ParsedList(b[..CHILD_SIZE * i], i) == None
    ensures ParsedList(b, n) == None
    decreases n
  {
    if i < n {
      var c := b[..CHILD_SIZE * (n - 1)];
      assert c[..CHILD_SIZE * i] == b[..CHILD_SIZE * i];
      Spoiled(c, i, n - 1);
    } else {
      assert b[..CHILD_SIZE * i] == b;
    }
  }

  method DecodeNode(data: Bytes, version: Version) returns (r: Option<NodeData>)
    ensures r == DecodedNode(data, version)
  {
    hide DecodedInternal;
    if |data| < 1 { return None; }
    var rest := data[1..];
    if data[0] == LEAF_TAG {
      if |rest| != 64 { return None; }
      assert rest[0..32] == data[1..33] && rest[32..64] == data[33..65];
      return Some(LeafData(rest[0..32], rest[32..64], None, version));
    }
    if data[0] == INTERNAL_TAG {
      r := DecodeInternalNode(rest, version);
      return;
    }
    return None;
  }
}
