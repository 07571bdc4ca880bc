/**
 The byte encoding of proofs (pkg/proof/codec.go).
 */
module ProofCodec {
  import opened Types
  import opened Merkle
  import opened Proofs
  import opened KeyCodec

  const MAX_PROOF_SIZE := 10 * 1024

  // ----- Encoding -----

  function KindByte(k: ProofKind): Byte {
    match k
    case Inclusion => 0
    case ExclusionEmpty => 1
    case ExclusionNeighbor => 2
  }

  function EncodedHeader(p: Proof): Bytes {
    [KindByte(p.kind)] + p.key + ToBytes(p.version, 8) + p.rootHash
  }

  function EncodedBody(p: Proof): Bytes
    requires ValidKind(p)
  {
    match p.kind
    case Inclusion => ToBytes(|p.value.value|, 4) + p.value.value
    case ExclusionEmpty => []
    case ExclusionNeighbor =>
      var n := p.neighbor.value;
      n.key + n.valueHash + ToBytes(n.divergeDepth, 2) + ToBytes(|n.path|, 2) + n.path
  }

  function Record(n: Byte, h: Hash): Bytes {
    [n] + h
  }

  /** The records of the children from nibble `n` on; nibbles above 15 are not written. */
  function Records(m: map<Byte, Hash>, n: nat): Bytes
    requires n <= 16
    decreases 16 - n
  {
    if n == 16 then [] else (if n in m then Record(n, m[n]) else []) + Records(m, n + 1)
  }

  /** The depth is cut to 16 bits. */
  function EncodedSibling(s: Sibling): Bytes {
    ToBytes(s.depth % 0x1_0000, 2) + [s.nibble] + ToBytes(|s.children|, 2) + Records(s.children, 0)
  }

  function EncodedSiblings(s: seq<Sibling>): Bytes {
    if s == [] then [] else EncodedSibling(s[0]) + EncodedSiblings(s[1..])
  }

  function EncodedProof(p: Proof): Bytes
    requires ValidProof(p)
  {
    EncodedHeader(p) + EncodedBody(p) + ToBytes(|p.siblings|, 2) + EncodedSiblings(p.siblings)
  }

  /** The head of an encoded proof, byte by byte: kind, key, version and root hash. */
  lemma ProofLayout(p: Proof)
    requires ValidProof(p)
    ensures var b := EncodedProof(p);
            && |b| >= 75 &&
                 b[0] == (match p.kind case Inclusion => 0 case ExclusionEmpty => 1 case ExclusionNeighbor => 2)
            && b[1..33] == p.key && FromBytes(b[33..41]) == p.version && b[41..73] == p.rootHash
            && (p.kind == Inclusion ==> b[77..77 + |p.value.value|] == p.value.value)
            && (p.kind == ExclusionNeighbor ==>
                  b[73..105] == p.neighbor.value.key && b[105..137] == p.neighbor.value.valueHash)
  {
    hide ToBytes, FromBytes, EncodedSiblings, ValidSiblings, Power256, EncodedHeader, EncodedBody, EncodedProof;
    var b, body := EncodedProof(p), EncodedBody(p);
    var rest := body + (ToBytes(|p.siblings|, 2) + EncodedSiblings(p.siblings));
    Widths();
    NumberRoundTrip(p.version, 8);
    ProofParts(p);
    HeaderBytes(p, rest);
    assert b == EncodedHeader(p) + rest;
    assert b[73..] == rest && rest[..|body|] == body;
    BodyLayout(p);
    if p.kind == Inclusion {
      assert b[77..77 + |p.value.value|] == b[73..][..|body|][4..];
    }
    if p.kind == ExclusionNeighbor {
      assert b[73..105] == b[73..][..|body|][..32] && b[105..137] == b[73..][..|body|][32..64];
    }
  }

  lemma ProofParts(p: Proof)
    requires ValidProof(p)
    ensures EncodedProof(p) ==
            EncodedHeader(p) + EncodedBody(p) + ToBytes(|p.siblings|, 2) + EncodedSiblings(p.siblings)
  {
  }

  lemma BodyLayout(p: Proof)
    requires ValidKind(p)
    ensures var body := EncodedBody(p);
            && (p.kind == Inclusion ==> |body| == 4 + |p.value.value| && body[4..] == p.value.value)
            && (p.kind == ExclusionNeighbor ==>
                  |body| >= 64 && body[..32] == p.neighbor.value.key && body[32..64] == p.neighbor.value.valueHash)
  {
    hide ToBytes;
    var body := EncodedBody(p);
    if p.kind == Inclusion { assert body[4..] == p.value.value; }
    if p.kind == ExclusionNeighbor {
      assert body[..32] == p.neighbor.value.key && body[32..64] == p.neighbor.value.valueHash;
    }
  }

  // ----- Decoding -----

  function TakeChildren(b: Bytes, n: nat, m: map<Byte, Hash>): Option<(map<Byte, Hash>, Bytes)> {
    if n == 0 then Some((m, b))
    else if |b| < 33 then None
    else TakeChildren(b[33..], n - 1, m[b[0] := b[1..33]])
  }

  function TakeSibling(b: Bytes): Option<(Sibling, Bytes)> {
    if |b| < 5 then None
    else
      match TakeChildren(b[5..], FromBytes(b[3..5]), map[])
      case None => None
      case Some((children, rest)) => Some((Sibling(FromBytes(b[..2]), b[2], ZERO, children), rest))
  }

  function TakeSiblings(b: Bytes, n: nat, s: seq<Sibling>): Option<seq<Sibling>>
    decreases n
  {
    if n == 0 then Some(s)
    else
      match TakeSibling(b)
      case None => None
      case Some((sib, rest)) => TakeSiblings(rest, n - 1, s + [sib])
  }

  /** The part of a proof that depends on its kind. */
  datatype Body = Body(value: Option<Bytes>, neighbor: Option<Neighbor>)

  function TakeBody(kind: Byte, b: Bytes): Option<(Body, Bytes)> {
    match kind
    case 0 =>
      if |b| < 4 then None
      else
        var n := FromBytes(b[..4]);
        if |b| < 4 + n then None else Some((Body(Some(b[4..4 + n]), None), b[4 + n..]))
    case 1 => Some((Body(None, None), b))
    case 2 =>
      if |b| < 68 then None
      else
        var n := FromBytes(b[66..68]);
        if |b| < 68 + n then None
        else Some((Body(None, Some(Neighbor(b[..32], b[32..64], b[68..68 + n], FromBytes(b[64..66])))), b[68 + n..]))
    case _ => None
  }

  function KindOf(b: Byte): ProofKind {
    if b == 0 then Inclusion else if b == 1 then ExclusionEmpty else ExclusionNeighbor
  }

  function DecodedProof(b: Bytes): Option<Proof> {
    if |b| < 73 then None
    else
      match TakeBody(b[0], b[73..])
      case None => None
      case Some((body, rest)) =>
        if |rest| < 2 then None
        else
          match TakeSiblings(rest[2..], FromBytes(rest[..2]), [])
          case None => None
          case Some(siblings) =>
            var p := Proof(KindOf(b[0]), b[1..33], body.value, body.neighbor, siblings, b[41..73],
                           ReadVersion(b[33..41]));
            if ValidProof(p) then Some(p) else None
  }

  /** Whatever is decoded passes the validity check, is of the kind that its first byte says, and has no unused hash. */
  lemma DecodedIsValid(b: Bytes)
    requires DecodedProof(b).Some?
    ensures var p := DecodedProof(b).value;
            && ValidProof(p) && b[0] == KindByte(p.kind) && forall s | s in p.siblings :: s.hash == ZERO
  {
    hide ValidSiblings, FromBytes, ReadVersion, TakeSiblings, TakeBody;
    var body := TakeBody(b[0], b[73..]).value;
    KnownKind(b[0], b[73..]);
    TakenPlain(body.1[2..], FromBytes(body.1[..2]), []);
  }

  lemma KnownKind(kind: Byte, b: Bytes)
    requires TakeBody(kind, b).Some?
    ensures kind == KindByte(KindOf(kind))
  {
    hide FromBytes;
  }

  lemma {:induction false} TakenPlain(b: Bytes, n: nat, s: seq<Sibling>)
    requires TakeSiblings(b, n, s).Some? && forall x | x in s :: x.hash == ZERO
    ensures forall x | x in TakeSiblings(b, n, s).value :: x.hash == ZERO
    decreases n
  {
    hide TakeSibling;
    if n > 0 {
      OnePlain(b);
      var (sib, rest) := TakeSibling(b).value;
      TakenPlain(rest, n - 1, s + [sib]);
    }
  }

  lemma OnePlain(b: Bytes)
    requires TakeSibling(b).Some?
    ensures TakeSibling(b).value.0.hash == ZERO
  {
    hide TakeChildren, FromBytes;
  }

  // ----- Round trip -----

  /** The children under nibbles from `n` on. */
  ghost function From(m: map<Byte, Hash>, n: nat): map<Byte, Hash> {
    map x | x in m && n <= x :: m[x]
  }

  lemma FromStep(m: map<Byte, Hash>, n: Byte)
    ensures n in m ==> |From(m, n)| == |From(m, n + 1)| + 1 && From(m, n) == From(m, n + 1)[n := m[n]]
    ensures n !in m ==> From(m, n) == From(m, n + 1)
  {
    if n in m {
      assert From(m, n).Keys == From(m, n + 1).Keys + {n};
      assert From(m, n) == From(m, n + 1)[n := m[n]];
      assert |From(m, n).Keys| == |From(m, n)| && |From(m, n + 1).Keys| == |From(m, n + 1)|;
    }
  }

  /** All nibbles are below 16, so every child is written. */
  predicate InRange(m: map<Byte, Hash>) {
    forall x | x in m :: x < 16
  }

  lemma {:induction false} ChildrenRoundTrip(m: map<Byte, Hash>, n: nat, rest: Bytes, before: map<Byte, Hash>)
    requires InRange(m) && n <= 16
    ensures TakeChildren(Records(m, n) + rest, |From(m, n)|, before) == Some((before + From(m, n), rest))
    decreases 16 - n
  {
    hide *;
    if n == 16 {
      NoRecords(m, rest, before);
    } else {
      FromStep(m, n);
      RecordsStep(m, n);
      if n in m {
        ChildrenRoundTrip(m, n + 1, rest, before[n := m[n]]);
        TakeChild(n, m[n], Records(m, n + 1) + rest, |From(m, n)|, before);
        Assoc(Record(n, m[n]), Records(m, n + 1), rest);
        MergeStep(m, n, before);
      } else {
        ChildrenRoundTrip(m, n + 1, rest, before);
      }
    }
  }

  lemma NoRecords(m: map<Byte, Hash>, rest: Bytes, before: map<Byte, Hash>)
    requires InRange(m)
    ensures TakeChildren(Records(m, 16) + rest, |From(m, 16)|, before) == Some((before + From(m, 16), rest))
  {
    assert From(m, 16) == map[];
    assert Records(m, 16) + rest == rest && before + From(m, 16) == before;
  }

  lemma Assoc(a: Bytes, b: Bytes, c: Bytes)
    ensures (a + b) + c == a + (b + c)
  {
  }

  lemma RecordsStep(m: map<Byte, Hash>, n: nat)
    requires n < 16
    ensures n in m ==> Records(m, n) == Record(n, m[n]) + Records(m, n + 1)
    ensures n !in m ==> Records(m, n) == Records(m, n + 1)
  {
  }

  lemma TakeChild(x: Byte, h: Hash, rest: Bytes, n: nat, m: map<Byte, Hash>)
    requires n > 0
    ensures TakeChildren(Record(x, h) + rest, n, m) == TakeChildren(rest, n - 1, m[x := h])
  {
    var b := Record(x, h) + rest;
    assert b[1..33] == h && b[33..] == rest;
  }

  lemma MergeStep(m: map<Byte, Hash>, n: Byte, before: map<Byte, Hash>)
    requires n in m
    ensures before[n := m[n]] + From(m, n + 1) == before + From(m, n)
  {
  }

  /** A sibling without its unused hash. */
  function PlainSibling(s: Sibling): Sibling {
    s.(hash := ZERO)
  }

  function PlainSiblings(s: seq<Sibling>): (r: seq<Sibling>)
    ensures |r| == |s|
  {
    seq(|s|, i requires 0 <= i < |s| => PlainSibling(s[i]))
  }

  function Plain(p: Proof): Proof {
    p.(siblings := PlainSiblings(p.siblings))
  }

  /** The header of a sibling, before its children. */
  lemma SiblingHeader(depth: nat, nibble: Byte, n: nat, rest: Bytes, children: map<Byte, Hash>, after: Bytes)
    requires depth < 0x1_0000 && n < 0x1_0000 && TakeChildren(rest, n, map[]) == Some((children, after))
    ensures TakeSibling(ToBytes(depth, 2) + [nibble] + ToBytes(n, 2) + rest) ==
        Some((Sibling(depth, nibble, ZERO, children), after))
  {
    hide ToBytes, FromBytes, TakeChildren;
    var b := ToBytes(depth, 2) + [nibble] + ToBytes(n, 2) + rest;
    TwoBytes(depth);
    TwoBytes(n);
    assert b[..2] == ToBytes(depth, 2);
    assert b[3..5] == ToBytes(n, 2);
    assert b[5..] == rest;
  }

  lemma TwoBytes(x: nat)
    requires x < 0x1_0000
    ensures FromBytes(ToBytes(x, 2)) == x
  {
    hide ToBytes, FromBytes;
    Widths();
    NumberRoundTrip(x, 2);
  }

  lemma AllChildren(m: map<Byte, Hash>, rest: Bytes)
    requires InRange(m)
    ensures |m| <= 16 && TakeChildren(Records(m, 0) + rest, |m|, map[]) == Some((m, rest))
  {
    hide *;
    ChildCount(m);
    ChildrenRoundTrip(m, 0, rest, map[]);
    assert map[] + m == m;
  }

  lemma SiblingRoundTrip(s: Sibling, rest: Bytes)
    requires Fits(s)
    ensures TakeSibling(EncodedSibling(s) + rest) == Some((PlainSibling(s), rest))
  {
    hide ToBytes, Records, TakeChildren, TakeSibling, InRange;
    AllChildren(s.children, rest);
    SiblingHeader(s.depth, s.nibble, |s.children|, Records(s.children, 0) + rest, s.children, rest);
    Assoc(ToBytes(s.depth, 2) + [s.nibble] + ToBytes(|s.children|, 2), Records(s.children, 0), rest);
  }

  lemma {:induction false} FromSize(m: map<Byte, Hash>, n: nat)
    requires InRange(m) && n <= 16
    ensures |From(m, n)| <= 16 - n
    decreases 16 - n
  {
    if n == 16 {
      assert From(m, n) == map[];
    } else {
      hide From;
      FromStep(m, n);
      FromSize(m, n + 1);
    }
  }

  lemma ChildCount(m: map<Byte, Hash>)
    requires InRange(m)
    ensures From(m, 0) == m && |m| <= 16
  {
    FromSize(m, 0);
    assert From(m, 0) == m;
  }

  /** A sibling that fits its length fields. */
  predicate Fits(s: Sibling) {
    0 <= s.depth < 0x1_0000 && InRange(s.children)
  }

  lemma {:induction false} SiblingsRoundTrip(s: seq<Sibling>, before: seq<Sibling>)
    requires forall i | 0 <= i < |s| :: Fits(s[i])
    ensures TakeSiblings(EncodedSiblings(s), |s|, before) == Some(before + PlainSiblings(s))
    decreases |s|
  {
    if s != [] {
      hide *;
      FitsRest(s);
      SiblingRoundTrip(s[0], EncodedSiblings(s[1..]));
      SiblingsStep(s, before);
      SiblingsRoundTrip(s[1..], before + [PlainSibling(s[0])]);
      PlainStep(s);
      Regrouped(before, [PlainSibling(s[0])], PlainSiblings(s[1..]));
    } else {
      NothingTaken(before);
    }
  }

  lemma Regrouped(a: seq<Sibling>, b: seq<Sibling>, c: seq<Sibling>)
    ensures (a + b) + c == a + (b + c)
  {
  }

  lemma NothingTaken(before: seq<Sibling>)
    ensures TakeSiblings(EncodedSiblings([]), 0, before) == Some(before + PlainSiblings([]))
  {
    assert before + PlainSiblings([]) == before;
  }

  lemma FitsRest(s: seq<Sibling>)
    requires s != [] && forall i | 0 <= i < |s| :: Fits(s[i])
    ensures Fits(s[0]) && forall i | 0 <= i < |s[1..]| :: Fits(s[1..][i])
  {
    hide Fits;
  }

  lemma SiblingsStep(s: seq<Sibling>, before: seq<Sibling>)
    requires s != []
    requires TakeSibling(EncodedSibling(s[0]) + EncodedSiblings(s[1..])) ==
        Some((PlainSibling(s[0]), EncodedSiblings(s[1..])))
    ensures TakeSiblings(EncodedSiblings(s), |s|, before) ==
        TakeSiblings(EncodedSiblings(s[1..]), |s| - 1, before + [PlainSibling(s[0])])
  {
    hide EncodedSibling, TakeSibling, PlainSibling;
  }

  lemma PlainStep(s: seq<Sibling>)
    requires s != []
    ensures PlainSiblings(s) == [PlainSibling(s[0])] + PlainSiblings(s[1..])
  {
  }

  lemma BodyRoundTrip(p: Proof, rest: Bytes)
    requires ValidKind(p)
    requires p.kind == Inclusion ==> |p.value.value| < 0x1_0000_0000
    requires p.kind == ExclusionNeighbor ==> |p.neighbor.value.path| < 0x1_0000
    ensures TakeBody(KindByte(p.kind), EncodedBody(p) + rest) == Some((Body(p.value, p.neighbor), rest))
  {
    hide ToBytes, FromBytes;
    Widths();
    var b := EncodedBody(p) + rest;
    match p.kind
    case Inclusion =>
      var v := p.value.value;
      NumberRoundTrip(|v|, 4);
      assert b[..4] == ToBytes(|v|, 4) && b[4..4 + |v|] == v && b[4 + |v|..] == rest;
    case ExclusionEmpty =>
      assert b == rest;
    case ExclusionNeighbor =>
      NeighborRoundTrip(p.neighbor.value, rest);
  }

  lemma NeighborRoundTrip(n: Neighbor, rest: Bytes)
    requires 0 <= n.divergeDepth < 0x1_0000 && |n.path| < 0x1_0000
    ensures TakeBody(2, n.key + n.valueHash + ToBytes(n.divergeDepth, 2) + ToBytes(|n.path|, 2) + n.path + rest) ==
            Some((Body(None, Some(n)), rest))
  {
    hide ToBytes, FromBytes;
    Widths();
    var b := n.key + n.valueHash + ToBytes(n.divergeDepth, 2) + ToBytes(|n.path|, 2) + n.path + rest;
    NumberRoundTrip(n.divergeDepth, 2);
    NumberRoundTrip(|n.path|, 2);
    assert b[..32] == n.key && b[32..64] == n.valueHash && b[64..66] == ToBytes(n.divergeDepth, 2) &&
      b[66..68] == ToBytes(|n.path|, 2);
    assert b[68..68 + |n.path|] == n.path && b[68 + |n.path|..] == rest;
  }

  /** No child is lost: every nibble in the proof is below 16. */
  predicate Complete(p: Proof) {
    forall i | 0 <= i < |p.siblings| :: InRange(p.siblings[i].children)
  }

  /** The size limit keeps every length within its field. */
  lemma SizesFit(p: Proof)
    requires ValidProof(p) && |EncodedProof(p)| <= MAX_PROOF_SIZE
    ensures p.kind == Inclusion ==> |p.value.value| < 0x1_0000_0000
    ensures p.kind == ExclusionNeighbor ==> |p.neighbor.value.path| < 0x1_0000
    ensures |p.siblings| <= MAX_DEPTH + 1
  {
    hide ToBytes;
    FewSiblings(p.siblings);
  }

  lemma FewSiblings(s: seq<Sibling>)
    requires ValidSiblings(s)
    ensures |s| <= MAX_DEPTH + 1
  {
    if s != [] { DepthGrows(s, |s| - 1); }
  }

  lemma {:induction false} DepthGrows(s: seq<Sibling>, i: nat)
    requires ValidSiblings(s) && i < |s|
    ensures s[i].depth >= i
  {
    if i > 0 { DepthGrows(s, i - 1); }
  }

  /** A plain copy of a proof is as valid as the proof. */
  lemma PlainIsValid(p: Proof)
    ensures ValidProof(Plain(p)) <==> ValidProof(p)
  {
    var s, r := p.siblings, PlainSiblings(p.siblings);
    assert forall i | 0 <= i < |s| :: r[i] == PlainSibling(s[i]);
    if ValidSiblings(r) {
      forall i | 0 <= i < |s|
        ensures 0 <= s[i].depth <= MAX_DEPTH && s[i].nibble < 16 && (0 < i ==> s[i - 1].depth < s[i].depth)
      {
        assert r[i].depth == s[i].depth && r[i].nibble == s[i].nibble;
      }
    }
  }

  /** Decoding an encoded proof comes down to decoding its siblings. */
  lemma DecodesTo(p: Proof)
    requires ValidProof(p) && |EncodedProof(p)| <= MAX_PROOF_SIZE
    ensures DecodedProof(EncodedProof(p)) ==
            match TakeSiblings(EncodedSiblings(p.siblings), |p.siblings|, [])
            case None => None
            case Some(s) => if ValidProof(p.(siblings := s)) then Some(p.(siblings := s)) else None
  {
    hide ToBytes, FromBytes, EncodedBody, TakeBody, EncodedSiblings, TakeSiblings, ValidKind, ValidSiblings,
      DecodedProof,
      ReadVersion, EncodedHeader, Power256, KindByte, KindOf;
    SizesFit(p);
    Widths();
    NumberRoundTrip(|p.siblings|, 2);
    VersionRoundTrip(p.version);
    var b := EncodedProof(p);
    var tail := ToBytes(|p.siblings|, 2) + EncodedSiblings(p.siblings);
    HeaderBytes(p, EncodedBody(p) + tail);
    assert b == EncodedHeader(p) + (EncodedBody(p) + tail);
    BodyRoundTrip(p, tail);
    assert tail[..2] == ToBytes(|p.siblings|, 2) && tail[2..] == EncodedSiblings(p.siblings);
    DecodedIs(b, Body(p.value, p.neighbor), tail);
  }

  /** What decoding makes of a head and a body that have been read. */
  lemma DecodedIs(b: Bytes, body: Body, rest: Bytes)
    requires |b| >= 73 && TakeBody(b[0], b[73..]) == Some((body, rest)) && |rest| >= 2
    ensures DecodedProof(b) ==
            match TakeSiblings(rest[2..], FromBytes(rest[..2]), [])
            case None => None
            case Some(s) =>
              var p := Proof(KindOf(b[0]), b[1..33], body.value, body.neighbor, s, b[41..73], ReadVersion(b[33..41]));
              if ValidProof(p) then Some(p) else None
  {
    hide TakeBody, TakeSiblings, ValidProof, ReadVersion, FromBytes, KindOf;
  }

  /**
   Decoding gives a proof that encoding accepts back, apart from the unused sibling hashes, if and
   only if all its child nibbles are below 16: others are counted but not written.
   */
  lemma ProofRoundTrip(p: Proof)
    requires ValidProof(p) && |EncodedProof(p)| <= MAX_PROOF_SIZE
    ensures DecodedProof(EncodedProof(p)) == Some(Plain(p)) <==> Complete(p)
  {
    hide EncodedProof, DecodedProof, EncodedSiblings, TakeSiblings, ValidKind, ValidSiblings, InRange, PlainSiblings,
      Fits, FullSize;
    DecodesTo(p);
    PlainIsValid(p);
    if Complete(p) {
      SiblingsFit(p);
      SiblingsRoundTrip(p.siblings, []);
      assert [] + PlainSiblings(p.siblings) == PlainSiblings(p.siblings);
    } else if TakeSiblings(EncodedSiblings(p.siblings), |p.siblings|, []) == Some(PlainSiblings(p.siblings)) {
      TakenSize(EncodedSiblings(p.siblings), |p.siblings|, []);
      PlainSize(p.siblings);
      NoSize();
      Shortfall(p.siblings);
    }
  }

  // ----- What is lost of an incomplete proof -----

  /** The bytes that siblings need when every child has a record. */
  function FullSize(s: seq<Sibling>): nat {
    if s == [] then 0 else FullSize(s[..|s| - 1]) + 5 + 33 * |s[|s| - 1].children|
  }

  lemma {:induction false} ChildrenTaken(b: Bytes, n: nat, m: map<Byte, Hash>)
    ensures var r := TakeChildren(b, n, m);
            r.Some? ==> |r.value.1| + 33 * n == |b| && |r.value.0| <= |m| + n
    decreases n
  {
    if n > 0 && |b| >= 33 {
      var m' := m[b[0] := b[1..33]];
      assert m'.Keys == m.Keys + {b[0]};
      assert |m'| == |m'.Keys| && |m| == |m.Keys|;
      ChildrenTaken(b[33..], n - 1, m');
    }
  }

  lemma SiblingTaken(b: Bytes)
    ensures var r := TakeSibling(b);
            r.Some? ==> |r.value.1| + 5 + 33 * |r.value.0.children| <= |b|
  {
    hide TakeChildren;
    if |b| >= 5 { ChildrenTaken(b[5..], FromBytes(b[3..5]), map[]); }
  }

  /** Siblings cannot be read from fewer bytes than they need. */
  lemma {:induction false} TakenSize(b: Bytes, n: nat, s: seq<Sibling>)
    ensures var r := TakeSiblings(b, n, s);
            r.Some? ==> FullSize(r.value) <= FullSize(s) + |b|
    decreases n
  {
    if n > 0 {
      hide TakeSibling;
      SiblingTaken(b);
      var first := TakeSibling(b);
      if first.Some? {
        var s' := s + [first.value.0];
        assert s'[..|s|] == s;
        TakenSize(first.value.1, n - 1, s');
      }
    }
  }

  lemma NoSize()
    ensures FullSize([]) == 0
  {
  }

  lemma {:induction false} PlainSize(s: seq<Sibling>)
    ensures FullSize(PlainSiblings(s)) == FullSize(s)
    decreases |s|
  {
    if s != [] {
      var r := PlainSiblings(s);
      assert r[..|s| - 1] == PlainSiblings(s[..|s| - 1]);
      assert r[|s| - 1] == PlainSibling(s[|s| - 1]);
      PlainSize(s[..|s| - 1]);
    }
  }

  /** Every record needs a child, and a child above 15 has none. */
  lemma {:induction false} RecordsSize(m: map<Byte, Hash>, n: nat)
    requires n <= 16
    ensures |Records(m, n)| <= 33 * |From(m, n)|
    ensures !InRange(m) ==> |Records(m, n)| < 33 * |From(m, n)|
    decreases 16 - n
  {
    hide *;
    if n == 16 {
      RecordsEnd(m);
      if !InRange(m) { HighChild(m); }
    } else {
      FromStep(m, n);
      RecordsStep(m, n);
      RecordSize(m, n);
      RecordsSize(m, n + 1);
    }
  }

  lemma RecordSize(m: map<Byte, Hash>, n: Byte)
    ensures n in m ==> |Record(n, m[n])| == 33
  {
  }

  lemma HighChild(m: map<Byte, Hash>)
    requires !InRange(m)
    ensures |From(m, 16)| > 0
  {
    var x :| x in m && x >= 16;
    assert x in From(m, 16);
  }

  lemma SiblingSize(s: Sibling)
    ensures |EncodedSibling(s)| <= 5 + 33 * |s.children|
    ensures !InRange(s.children) ==> |EncodedSibling(s)| < 5 + 33 * |s.children|
  {
    hide InRange, Records;
    RecordsSize(s.children, 0);
    assert From(s.children, 0) == s.children;
  }

  lemma FullSizeFirst(s: seq<Sibling>)
    requires s != []
    ensures FullSize(s) == 5 + 33 * |s[0].children| + FullSize(s[1..])
    decreases |s|
  {
    if |s| > 1 {
      FullSizeFirst(s[..|s| - 1]);
      assert s[..|s| - 1][1..] == s[1..][..|s[1..]| - 1];
    }
  }

  /** An incomplete list of siblings is written in fewer bytes than it needs. */
  lemma {:induction false} Shortfall(s: seq<Sibling>)
    ensures |EncodedSiblings(s)| <= FullSize(s)
    ensures (exists i :: 0 <= i < |s| && !InRange(s[i].children)) ==> |EncodedSiblings(s)| < FullSize(s)
    decreases |s|
  {
    if s != [] {
      hide EncodedSibling, InRange, FullSize;
      FullSizeFirst(s);
      SiblingSize(s[0]);
      Shortfall(s[1..]);
      if i :| 0 <= i < |s| && !InRange(s[i].children) {
        assert i > 0 ==> s[1..][i - 1] == s[i];
      }
    }
  }

  lemma HeaderBytes(p: Proof, rest: Bytes)
    ensures var b := EncodedHeader(p) + rest;
            && |b| >= 73 && b[0] == KindByte(p.kind) && KindOf(b[0]) == p.kind && b[1..33] == p.key
            && b[33..41] == ToBytes(p.version, 8) && b[41..73] == p.rootHash && b[73..] == rest
  {
    hide ToBytes;
    var b := EncodedHeader(p) + rest;
    assert b[1..33] == p.key && b[33..41] == ToBytes(p.version, 8) && b[41..73] == p.rootHash && b[73..] == rest;
  }

  lemma SiblingsFit(p: Proof)
    requires ValidProof(p) && Complete(p)
    ensures forall i | 0 <= i < |p.siblings| :: Fits(p.siblings[i])
  {
    hide InRange;
  }

  // ----- Verification sees no difference -----

  lemma {:induction false} PlainClimb(H: Hasher, path: Path, s: seq<Sibling>, start: Option<Hash>, i: nat)
    requires |path| == MAX_DEPTH && InDepth(s) && i <= |s|
    ensures InDepth(PlainSiblings(s)) && Climb(H, path, PlainSiblings(s), start, i) == Climb(H, path, s, start, i)
    decreases |s| - i
  {
    var r := PlainSiblings(s);
    assert forall j | 0 <= j < |s| :: r[j] == PlainSibling(s[j]);
    if i < |s| {
      PlainClimb(H, path, s, start, i + 1);
      assert Filled(r[i], path[r[i].depth], None) == Filled(s[i], path[s[i].depth], None);
    }
  }

  lemma PlainDepth(s: seq<Sibling>)
    ensures InDepth(PlainSiblings(s)) <==> InDepth(s)
  {
    var r := PlainSiblings(s);
    assert forall j | 0 <= j < |s| :: r[j] == PlainSibling(s[j]) && r[j].depth == s[j].depth;
  }

  /** Decoding changes no verdict. */
  lemma SameVerdict(H: Hasher, p: Proof)
    ensures Accepts(H, Plain(p)) <==> Accepts(H, p)
    ensures Panics(Plain(p)) <==> Panics(p)
  {
    hide ToPath, ValidSiblings, InDepth, PlainSiblings, Climb;
    PlainIsValid(p);
    PlainDepth(p.siblings);
    if ValidProof(p) && InDepth(p.siblings) {
      PlainClimb(H, ToPath(StartKey(p)), p.siblings, StartHash(H, p), 0);
    }
  }

  // ----- The codec -----

  /** Serialise a valid proof; refused when it is invalid or too large. */
  method Encode(p: Proof) returns (r: Option<Bytes>)
    ensures r.Some? <==> ValidProof(p) && |EncodedProof(p)| <= 10_240
    ensures r.Some? ==> r.value == EncodedProof(p)
  {
    hide ToBytes, EncodedBody, EncodedSiblings, ValidKind, ValidSiblings;
    var ok := IsValid(p);
    if !ok { return None; }
    var version := NumberOf(p.version, 8);
    var buf := [KindByte(p.kind)] + p.key + version + p.rootHash;
    var body := EncodeBody(p);
    var count := NumberOf(|p.siblings|, 2);
    buf := buf + body + count;
    ghost var head := buf;
    var i := 0;
    while i < |p.siblings|
      invariant 0 <= i <= |p.siblings|
      invariant buf + EncodedSiblings(p.siblings[i..]) == head + EncodedSiblings(p.siblings)
    {
      var sib := EncodeSibling(p.siblings[i]);
      SiblingsUnfold(p.siblings, i);
      Assoc(buf, sib, EncodedSiblings(p.siblings[i + 1..]));
      buf := buf + sib;
      i := i + 1;
    }
    NoSiblings(p.siblings[i..]);
    assert buf == EncodedProof(p);
    if |buf| > MAX_PROOF_SIZE { return None; }
    return Some(buf);
  }

  lemma SiblingsUnfold(s: seq<Sibling>, i: nat)
    requires i < |s|
    ensures EncodedSiblings(s[i..]) == EncodedSibling(s[i]) + EncodedSiblings(s[i + 1..])
  {
    hide EncodedSibling;
    assert s[i..][1..] == s[i + 1..];
  }

  lemma NoSiblings(s: seq<Sibling>)
    requires s == []
    ensures EncodedSiblings(s) == []
  {
  }

  method EncodeBody(p: Proof) returns (b: Bytes)
    requires ValidKind(p)
    ensures b == EncodedBody(p)
  {
    hide ToBytes;
    match p.kind
    case Inclusion =>
      var n := NumberOf(|p.value.value|, 4);
      b := n + p.value.value;
    case ExclusionEmpty =>
      b := [];
    case ExclusionNeighbor =>
      var neighbor := p.neighbor.value;
      var depth := NumberOf(neighbor.divergeDepth, 2);
      var n := NumberOf(|neighbor.path|, 2);
      b := neighbor.key + neighbor.valueHash + depth + n + neighbor.path;
  }

  method EncodeSibling(s: Sibling) returns (b: Bytes)
    ensures b == EncodedSibling(s)
  {
    hide ToBytes, Records, Record;
    var depth := NumberOf(s.depth % 0x1_0000, 2);
    var n := NumberOf(|s.children|, 2);
    b := depth + [s.nibble] + n;
    ghost var head := b;
    for nibble := 0 to 16
      invariant b + Records(s.children, nibble) == head + Records(s.children, 0)
    {
      RecordsStep(s.children, nibble);
      if nibble in s.children {
        Assoc(b, Record(nibble, s.children[nibble]), Records(s.children, nibble + 1));
        b := b + Record(nibble, s.children[nibble]);
      }
    }
    RecordsEnd(s.children);
  }

  lemma RecordsEnd(m: map<Byte, Hash>)
    ensures Records(m, 16) == []
  {
  }

  /** Read the children of one sibling from `offset` on. */
  method ReadChildren(data: Bytes, offset: nat, n: nat) returns (ok: bool, children: map<Byte, Hash>, end: nat)
    requires offset <= |data|
    ensures ok ==> end <= |data| && TakeChildren(data[offset..], n, map[]) == Some((children, data[end..]))
    ensures !ok ==> TakeChildren(data[offset..], n, map[]) == None
  {
    hide TakeChildren;
    children, end := map[], offset;
    var j := 0;
    while j < n
      invariant 0 <= j <= n && end <= |data|
      invariant TakeChildren(data[offset..], n, map[]) == TakeChildren(data[end..], n - j, children)
    {
      ChildAt(data, end, n - j, children);
      if |data| < end + 33 { return false, children, end; }
      children := children[data[end] := data[end + 1..end + 33]];
      end, j := end + 33, j + 1;
    }
    AllTaken(data[end..], children);
    return true, children, end;
  }

  lemma ChildAt(data: Bytes, at: nat, n: nat, m: map<Byte, Hash>)
    requires at <= |data| && n > 0
    ensures |data| < at + 33 ==> TakeChildren(data[at..], n, m) == None
    ensures |data| >= at + 33 ==>
        TakeChildren(data[at..], n, m) == TakeChildren(data[at + 33..], n - 1, m[data[at] := data[at + 1..at + 33]])
  {
    var b := data[at..];
    if |data| >= at + 33 {
      assert b[0] == data[at];
      assert b[1..33] == data[at + 1..at + 33];
      assert b[33..] == data[at + 33..];
    }
  }

  lemma AllTaken(b: Bytes, m: map<Byte, Hash>)
    ensures TakeChildren(b, 0, m) == Some((m, b))
  {
  }

  /** Read one sibling from `offset` on. */
  method ReadSibling(data: Bytes, offset: nat) returns (r: Option<Sibling>, end: nat)
    requires offset <= |data|
    ensures r.Some? ==> end <= |data| && TakeSibling(data[offset..]) == Some((r.value, data[end..]))
    ensures r.None? ==> TakeSibling(data[offset..]) == None
  {
    hide FromBytes, TakeChildren;
    end := offset;
    if |data| < offset + 5 { return None, end; }
    var depth := GetNumber(data, offset, 2);
    var nibble := data[offset + 2];
    var n := GetNumber(data, offset + 3, 2);
    SliceOfSlice(data, offset, |data|, 0, 2);
    SliceOfSlice(data, offset, |data|, 3, 5);
    assert data[offset..] == data[offset..|data|];
    assert data[offset..][..2] == data[offset..][0..2];
    assert data[offset..][5..] == data[offset + 5..];
    var ok, children;
    ok, children, end := ReadChildren(data, offset + 5, n);
    if !ok { return None, end; }
    return Some(Sibling(depth, nibble, ZERO, children)), end;
  }

  method ReadSiblings(data: Bytes, offset: nat, n: nat) returns (r: Option<seq<Sibling>>)
    requires offset <= |data|
    ensures r == TakeSiblings(data[offset..], n, [])
  {
    hide TakeSibling;
    var siblings: seq<Sibling> := [];
    var at: nat, i: nat := offset, 0;
    while i < n
      invariant 0 <= i <= n && at <= |data|
      invariant TakeSiblings(data[offset..], n, []) == TakeSiblings(data[at..], n - i, siblings)
    {
      var sib, end := ReadSibling(data, at);
      if sib.None? { return None; }
      siblings := siblings + [sib.value];
      at, i := end, i + 1;
    }
    return Some(siblings);
  }

  /** Read the part that depends on the kind. */
  method ReadBody(data: Bytes, offset: nat, kind: Byte) returns (r: Option<Body>, end: nat)
    requires offset <= |data|
    ensures r.Some? ==> end <= |data| && TakeBody(kind, data[offset..]) == Some((r.value, data[end..]))
    ensures r.None? ==> TakeBody(kind, data[offset..]) == None
  {
    hide FromBytes;
    end := offset;
    ghost var b := data[offset..];
    if kind == 0 {
      if |data| < offset + 4 { return None, end; }
      var n := GetNumber(data, offset, 4);
      assert b[..4] == data[offset..offset + 4];
      if |data| < offset + 4 + n { return None, end; }
      end := offset + 4 + n;
      assert b[4..4 + n] == data[offset + 4..end] && b[4 + n..] == data[end..];
      return Some(Body(Some(data[offset + 4..end]), None)), end;
    } else if kind == 1 {
      return Some(Body(None, None)), end;
    } else if kind == 2 {
      r, end := ReadNeighbor(data, offset);
    } else {
      return None, end;
    }
  }

  method ReadNeighbor(data: Bytes, offset: nat) returns (r: Option<Body>, end: nat)
    requires offset <= |data|
    ensures r.Some? ==> end <= |data| && TakeBody(2, data[offset..]) == Some((r.value, data[end..]))
    ensures r.None? ==> TakeBody(2, data[offset..]) == None
  {
    hide FromBytes;
    end := offset;
    ghost var b := data[offset..];
    if |data| < offset + 68 { return None, end; }
    var depth := GetNumber(data, offset + 64, 2);
    var n := GetNumber(data, offset + 66, 2);
    assert b == data[offset..|data|];
    SliceOfSlice(data, offset, |data|, 64, 66);
    SliceOfSlice(data, offset, |data|, 66, 68);
    SliceOfSlice(data, offset, |data|, 32, 64);
    assert b[..32] == data[offset..offset + 32];
    if |data| < offset + 68 + n { return None, end; }
    end := offset + 68 + n;
    SliceOfSlice(data, offset, |data|, 68, 68 + n);
    assert b[68 + n..] == data[end..];
    r := Some(Body(None,
                   Some(Neighbor(data[offset..offset + 32], data[offset + 32..offset + 64], data[offset + 68..end],
                                 depth))));
  }

  /** Deserialise a proof; never reads outside the data, whatever it holds. */
  method Decode(data: Bytes) returns (r: Option<Proof>)
    ensures r == DecodedProof(data)
    ensures forall p | ValidProof(p) && |EncodedProof(p)| <= MAX_PROOF_SIZE && data == EncodedProof(p) ::
              r == Some(Plain(p)) <==> Complete(p)
  {
    hide FromBytes, TakeBody, TakeSiblings, ReadVersion, ValidKind, ValidSiblings, EncodedProof, Complete, Plain;
    forall p | ValidProof(p) && |EncodedProof(p)| <= MAX_PROOF_SIZE && data == EncodedProof(p)
      ensures DecodedProof(data) == Some(Plain(p)) <==> Complete(p)
    {
      ProofRoundTrip(p);
    }
    if |data| < 73 { return None; }
    var version := GetNumber(data, 33, 8);
    NumberIsVersion(data[33..41]);
    var body, offset := ReadBody(data, 73, data[0]);
    if body.None? { return None; }
    if |data| < offset + 2 { return None; }
    var n := GetNumber(data, offset, 2);
    ghost var rest := data[offset..];
    assert rest[..2] == data[offset..offset + 2] && rest[2..] == data[offset + 2..];
    var siblings := ReadSiblings(data, offset + 2, n);
    if siblings.None? { return None; }
    var p := Proof(KindOf(data[0]), data[1..33], body.value.value, body.value.neighbor, siblings.value, data[41..73],
                   version);
    var ok := IsValid(p);
    if !ok { return None; }
    return Some(p);
  }
}
