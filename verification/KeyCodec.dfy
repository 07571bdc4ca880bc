/**
 Big-endian numbers, and the storage keys of nodes, values and roots
 (pkg/types/nodekey.go, pkg/storage/keys.go, pkg/tree/storage_keys.go).
 */
module KeyCodec {
  import opened Types

  // ----- Big-endian numbers -----

  function Power256(n: nat): (p: nat)
    ensures p > 0
  {
    if n == 0 then 1 else 256 * Power256(n - 1)
  }

  /** The last `n` bytes of `x`, most significant first. */
  function ToBytes(x: nat, n: nat): (b: Bytes)
    ensures |b| == n
  {
    if n == 0 then [] else ToBytes(x / 256, n - 1) + [x % 256]
  }

  function FromBytes(b: Bytes): (x: nat)
    ensures x < Power256(|b|)
  {
    if b == [] then 0 else FromBytes(b[..|b| - 1]) * 256 + b[|b| - 1]
  }

  lemma {:induction false} NumberRoundTrip(x: nat, n: nat)
    requires x < Power256(n)
    ensures FromBytes(ToBytes(x, n)) == x
  {
    if n > 0 {
      NumberRoundTrip(x / 256, n - 1);
      assert ToBytes(x, n)[..n - 1] == ToBytes(x / 256, n - 1);
    }
  }

  lemma {:induction false} BytesRoundTrip(b: Bytes)
    ensures ToBytes(FromBytes(b), |b|) == b
  {
    if b != [] {
      BytesRoundTrip(b[..|b| - 1]);
      assert b == b[..|b| - 1] + [b[|b| - 1]];
    }
  }

  /** `a` comes before `b` in the order in which storage iterates. */
  ghost predicate Sooner(a: Bytes, b: Bytes) {
    exists i | 0 <= i < |a| && i < |b| :: a[..i] == b[..i] && a[i] < b[i]
  }

  lemma SoonerAt(a: Bytes, b: Bytes, i: nat)
    requires i < |a| && i < |b| && a[..i] == b[..i] && a[i] < b[i]
    ensures Sooner(a, b)
  {
  }

  /** The encodings of numbers are in the order of the numbers. */
  lemma {:induction false} NumbersInOrder(x: nat, y: nat, n: nat)
    requires x < y < Power256(n)
    ensures Sooner(ToBytes(x, n), ToBytes(y, n))
    decreases n
  {
    var a, b := ToBytes(x, n), ToBytes(y, n);
    var p, q := ToBytes(x / 256, n - 1), ToBytes(y / 256, n - 1);
    if x / 256 < y / 256 {
      NumbersInOrder(x / 256, y / 256, n - 1);
      var i :| 0 <= i < |p| && i < |q| && p[..i] == q[..i] && p[i] < q[i];
      assert a[..i] == p[..i] && b[..i] == q[..i];
      SoonerAt(a, b, i);
    } else {
      assert a[..n - 1] == p == q == b[..n - 1];
      SoonerAt(a, b, n - 1);
    }
  }

  lemma Widths()
    ensures Power256(2) == 0x1_0000 && Power256(4) == 0x1_0000_0000 && Power256(8) == 0x1_0000_0000_0000_0000
  {
    assert Power256(1) == 256;
    assert Power256(3) == 256 * Power256(2);
    assert Power256(5) == 256 * Power256(4);
    assert Power256(6) == 256 * Power256(5);
    assert Power256(7) == 256 * Power256(6);
  }

  function ReadVersion(b: Bytes): Version
    requires |b| == 8
  {
    Widths();
    FromBytes(b)
  }

  lemma VersionRoundTrip(v: Version)
    ensures ReadVersion(ToBytes(v, 8)) == v
  {
    Widths();
    NumberRoundTrip(v, 8);
  }

  lemma SliceOfSlice(b: Bytes, i: nat, j: nat, k: nat, l: nat)
    requires i <= j <= |b| && k <= l <= j - i
    ensures b[i..j][k..l] == b[i + k..i + l]
  {
    var x, y := b[i..j][k..l], b[i + k..i + l];
    assert |x| == |y|;
    forall n | 0 <= n < |x|
      ensures x[n] == y[n]
    {
      assert x[n] == b[i..j][k + n] == b[i + (k + n)];
    }
  }

  // ----- Packed nibbles -----

  /** Bitwise OR of two bytes. */
  function Or(a: nat, b: nat): nat {
    if a == 0 && b == 0 then 0 else 2 * Or(a / 2, b / 2) + if a % 2 == 1 || b % 2 == 1 then 1 else 0
  }

  lemma OrZero(a: nat)
    ensures Or(a, 0) == a && Or(0, a) == a
  {
    if a > 0 { OrZero(a / 2); }
  }

  /** A nibble shifted into the high half of a byte. */
  function Shifted(n: Nibble): Byte {
    PackNibbles(n, 0)
  }

  lemma OrStep(a: nat, b: nat)
    ensures Or(2 * a, b) == 2 * Or(a, b / 2) + b % 2
  {
  }

  /** The two halves of a byte do not overlap. */
  lemma OrHalves(high: Nibble, low: Nibble)
    ensures Or(Shifted(high), low) == PackNibbles(high, low)
  {
    hide Or;
    var h: int := high;
    OrStep(8 * h, low);
    OrStep(4 * h, low / 2);
    OrStep(2 * h, low / 4);
    OrStep(h, low / 8);
    OrZero(h);
    assert low / 2 / 2 == low / 4 && low / 4 / 2 == low / 8 && low / 8 / 2 == 0;
  }

  function PackedByte(p: Path, i: nat): Byte
    requires 2 * i < |p|
  {
    PackNibbles(p[2 * i], if 2 * i + 1 < |p| then p[2 * i + 1] else 0)
  }

  /** Two nibbles a byte, the high half first; an odd path leaves the last low half zero. */
  function Packed(p: Path): (b: Bytes)
    ensures |b| == (|p| + 1) / 2
  {
    seq((|p| + 1) / 2, i requires 0 <= i < (|p| + 1) / 2 => PackedByte(p, i))
  }

  function Unpacked(b: Bytes, n: nat): (p: Path)
    requires (n + 1) / 2 <= |b|
    ensures |p| == n
  {
    seq(n, i requires 0 <= i < n => if i % 2 == 0 then b[i / 2] / 16 else b[i / 2] % 16)
  }

  lemma PathRoundTrip(p: Path, rest: Bytes)
    ensures Unpacked(Packed(p) + rest, |p|) == p
  {
    var b := Packed(p) + rest;
    forall i | 0 <= i < |p|
      ensures Unpacked(b, |p|)[i] == p[i]
    {
      assert b[i / 2] == PackedByte(p, i / 2);
      assert i == 2 * (i / 2) + i % 2;
    }
  }

  lemma RepackedByte(b: Bytes, n: nat, i: nat)
    requires |b| == (n + 1) / 2 && i < |b|
    ensures Packed(Unpacked(b, n))[i] == if 2 * i + 1 < n then b[i] else Shifted(b[i] / 16)
  {
    var p := Unpacked(b, n);
    assert p[2 * i] == b[i] / 16;
    if 2 * i + 1 < n { assert p[2 * i + 1] == b[i] % 16; }
  }

  /** Packing inverts unpacking exactly when the unused half of the last byte is zero. */
  lemma PackUnpacked(b: Bytes, n: nat)
    requires |b| == (n + 1) / 2
    ensures Packed(Unpacked(b, n)) == b <==> (n % 2 == 1 ==> b[|b| - 1] % 16 == 0)
  {
    hide Packed, Unpacked;
    var c := Packed(Unpacked(b, n));
    forall i | 0 <= i < |b|
      ensures c[i] == if 2 * i + 1 < n then b[i] else Shifted(b[i] / 16)
    {
      RepackedByte(b, n, i);
    }
    if n % 2 == 1 {
      assert c[|b| - 1] == b[|b| - 1] <==> b[|b| - 1] % 16 == 0;
      assert c[..|b| - 1] == b[..|b| - 1];
    }
  }

  // ----- Node keys -----

  const NODE_PREFIX: Byte := 110
  const ROOT_PREFIX: Byte := 114
  const VALUE_PREFIX: Byte := 118

  /** Version, nibble count and packed nibbles. */
  function EncodedKey(k: NodeKey): Bytes {
    ToBytes(k.version, 8) + ToBytes(|k.path|, 2) + Packed(k.path)
  }

  function NodeStorageKey(k: NodeKey): Bytes {
    [NODE_PREFIX] + EncodedKey(k)
  }

  function ValueStorageKey(h: Hash): Bytes {
    [VALUE_PREFIX] + h
  }

  function RootStorageKey(v: Version): Bytes {
    [ROOT_PREFIX] + ToBytes(v, 8)
  }

  /** What a buffer says, if it is long enough and claims at most 64 nibbles; more bytes may follow. */
  function DecodedKey(b: Bytes): Option<NodeKey> {
    if |b| < 10 then None
    else
      var n := FromBytes(b[8..10]);
      if n > MAX_DEPTH || |b| < 10 + (n + 1) / 2 then None
      else Some(NodeKey(ReadVersion(b[..8]), Unpacked(b[10..], n)))
  }

  /** Decoding inverts encoding, whatever follows. */
  lemma KeyRoundTrip(k: NodeKey, rest: Bytes)
    requires |k.path| <= MAX_DEPTH
    ensures DecodedKey(EncodedKey(k) + rest) == Some(k)
  {
    hide ToBytes, FromBytes, Packed, Unpacked, ReadVersion, Power256;
    var b := EncodedKey(k) + rest;
    assert b[..8] == ToBytes(k.version, 8) && b[8..10] == ToBytes(|k.path|, 2) && b[10..] == Packed(k.path) + rest;
    Widths();
    NumberRoundTrip(|k.path|, 2);
    VersionRoundTrip(k.version);
    PathRoundTrip(k.path, rest);
  }

  /** Distinct node keys have distinct encodings. */
  lemma KeysInjective(a: NodeKey, b: NodeKey)
    requires |a.path| <= MAX_DEPTH && |b.path| <= MAX_DEPTH && NodeStorageKey(a) == NodeStorageKey(b)
    ensures a == b
  {
    hide EncodedKey, DecodedKey;
    assert EncodedKey(a) == NodeStorageKey(a)[1..] == EncodedKey(b);
    KeyRoundTrip(a, []);
    KeyRoundTrip(b, []);
    assert EncodedKey(a) + [] == EncodedKey(a) && EncodedKey(b) + [] == EncodedKey(b);
  }

  /** Nodes, values and roots share one store without ever meeting. */
  lemma PrefixesSeparate(k: NodeKey, h: Hash, v: Version)
    ensures NodeStorageKey(k) != ValueStorageKey(h) && NodeStorageKey(k) != RootStorageKey(v)
    ensures ValueStorageKey(h) != RootStorageKey(v)
    ensures NodeStorageKey(k)[0] == 'n' as int && ValueStorageKey(h)[0] == 'v' as int
    ensures RootStorageKey(v)[0] == 'r' as int
    ensures |ValueStorageKey(h)| == 33 && ValueStorageKey(h)[1..] == h && |RootStorageKey(v)| == 9
  {
    hide EncodedKey, ToBytes;
    assert NodeStorageKey(k)[0] == NODE_PREFIX && ValueStorageKey(h)[0] == VALUE_PREFIX &&
      RootStorageKey(v)[0] == ROOT_PREFIX;
  }

  lemma ValueKeysInjective(a: Hash, b: Hash)
    requires ValueStorageKey(a) == ValueStorageKey(b)
    ensures a == b
  {
    assert a == ValueStorageKey(a)[1..];
  }

  lemma RootKeysInjective(a: Version, b: Version)
    requires RootStorageKey(a) == RootStorageKey(b)
    ensures a == b
  {
    hide ToBytes, ReadVersion;
    assert ToBytes(a, 8) == RootStorageKey(a)[1..];
    assert ToBytes(b, 8) == RootStorageKey(b)[1..];
    VersionRoundTrip(a);
    VersionRoundTrip(b);
  }

  /** Storage iterates over root hashes in the order of their versions. */
  lemma RootKeysInOrder(v: Version, w: Version)
    ensures v < w <==> Sooner(RootStorageKey(v), RootStorageKey(w))
  {
    hide ToBytes, Power256;
    Widths();
    if v < w { RootKeySooner(v, w); }
    if w < v {
      RootKeySooner(w, v);
      NotBoth(RootStorageKey(w), RootStorageKey(v));
    }
  }

  lemma RootKeySooner(v: Version, w: Version)
    requires v < w
    ensures Sooner(RootStorageKey(v), RootStorageKey(w))
  {
    hide ToBytes, Power256;
    Widths();
    NumbersInOrder(v, w, 8);
    var a, b := ToBytes(v, 8), ToBytes(w, 8);
    var i :| 0 <= i < |a| && i < |b| && a[..i] == b[..i] && a[i] < b[i];
    assert RootStorageKey(v)[..i + 1] == [ROOT_PREFIX] + a[..i] == [ROOT_PREFIX] + b[..i] == RootStorageKey(w)[..i + 1];
    SoonerAt(RootStorageKey(v), RootStorageKey(w), i + 1);
  }

  lemma NotBoth(a: Bytes, b: Bytes)
    requires Sooner(a, b)
    ensures !Sooner(b, a)
  {
    var i :| 0 <= i < |a| && i < |b| && a[..i] == b[..i] && a[i] < b[i];
    forall j | 0 <= j < |a| && j < |b| && b[..j] == a[..j]
      ensures b[j] >= a[j]
    {
      if j < i { assert a[j] == a[..i][j] == b[..i][j]; }
    }
  }

  /**
   The storage key of a node, byte by byte: an n, the version in eight bytes, the number of nibbles in
   two, and the nibbles, two a byte.
   */
  lemma NodeKeyLayout(k: NodeKey)
    requires |k.path| <= MAX_DEPTH
    ensures var b, n := NodeStorageKey(k), |k.path|;
            && |b| == 11 + (n + 1) / 2 && b[0] == 'n' as int && FromBytes(b[1..9]) == k.version
            && b[9] == 0 && b[10] == n
            && forall i | 0 <= i < n :: k.path[i] == if i % 2 == 0 then b[11 + i / 2] / 16 else b[11 + i / 2] % 16
  {
    hide ToBytes, FromBytes, Packed, Power256;
    var b, n := NodeStorageKey(k), |k.path|;
    var c := Packed(k.path);
    Widths();
    NumberRoundTrip(k.version, 8);
    assert b[1..9] == ToBytes(k.version, 8) && b[9..11] == ToBytes(n, 2) && b[11..] == c;
    SmallNumber(n);
    assert b[9] == b[9..11][0] && b[10] == b[9..11][1];
    PathRoundTrip(k.path, []);
    assert c + [] == c;
    forall i | 0 <= i < n
      ensures k.path[i] == if i % 2 == 0 then b[11 + i / 2] / 16 else b[11 + i / 2] % 16
    {
      assert b[11 + i / 2] == b[11..][i / 2];
      assert k.path[i] == Unpacked(c, n)[i];
    }
  }

  lemma SmallNumber(n: nat)
    requires n < 256
    ensures ToBytes(n, 2) == [0, n]
  {
    assert n / 256 == 0 && n % 256 == n;
    assert ToBytes(n, 2) == ToBytes(0, 1) + [n];
    assert ToBytes(0, 1) == ToBytes(0, 0) + [0];
  }

  // ----- The packers -----

  /** Fill `buf[at..at + n]` with the last `n` bytes of `x`. */
  method PutNumber(buf: array<Byte>, at: nat, x: nat, n: nat)
    requires at + n <= buf.Length
    modifies buf
    ensures buf[at..at + n] == ToBytes(x, n)
    ensures forall i | 0 <= i < buf.Length && !(at <= i < at + n) :: buf[i] == old(buf[i])
  {
    var rest, i := x, n;
    while i > 0
      invariant 0 <= i <= n
      invariant ToBytes(x, n) == ToBytes(rest, i) + buf[at + i..at + n]
      invariant forall j | 0 <= j < buf.Length && !(at <= j < at + n) :: buf[j] == old(buf[j])
    {
      i := i - 1;
      ghost var tail := buf[at + i + 1..at + n];
      buf[at + i] := rest % 256;
      assert buf[at + i..at + n] == [rest % 256] + tail;
      rest := rest / 256;
    }
    assert ToBytes(rest, 0) == [];
  }

  /** The last `n` bytes of `x`. */
  method NumberOf(x: nat, n: nat) returns (b: Bytes)
    ensures b == ToBytes(x, n)
  {
    hide ToBytes;
    var buf := new Byte[n](_ => 0);
    PutNumber(buf, 0, x, n);
    b := buf[..];
    assert b == buf[0..0 + n];
  }

  method GetNumber(buf: Bytes, at: nat, n: nat) returns (x: nat)
    requires at + n <= |buf|
    ensures x == FromBytes(buf[at..at + n])
  {
    x := 0;
    for i := 0 to n
      invariant x == FromBytes(buf[at..at + i])
    {
      assert buf[at..at + i + 1][..i] == buf[at..at + i];
      x := x * 256 + buf[at + i];
    }
  }

  /** Write the header of a key at `at`. */
  method PutHeader(buf: array<Byte>, at: nat, k: NodeKey)
    requires at + 10 <= buf.Length
    modifies buf
    ensures buf[at..at + 10] == ToBytes(k.version, 8) + ToBytes(|k.path|, 2)
    ensures forall i | 0 <= i < buf.Length && !(at <= i < at + 10) :: buf[i] == old(buf[i])
  {
    hide ToBytes;
    PutNumber(buf, at, k.version, 8);
    ghost var version := buf[at..at + 8];
    PutNumber(buf, at + 8, |k.path|, 2);
    assert buf[at..at + 8] == version;
    assert buf[at..at + 10] == buf[at..at + 8] + buf[at + 8..at + 10];
  }

  /** The packer of pkg/types: two nibbles a turn. */
  method EncodeNodeKey(k: NodeKey) returns (r: Bytes)
    requires |k.path| <= MAX_DEPTH
    ensures r == EncodedKey(k)
  {
    hide ToBytes, PackedByte, PackNibbles, Packed;
    var buf := new Byte[10 + (|k.path| + 1) / 2](_ => 0);
    PutHeader(buf, 0, k);
    ghost var header := buf[0..10];
    var offset, i := 10, 0;
    while i < |k.path|
      invariant 0 <= i <= |k.path| + 1 && i % 2 == 0 && offset == 10 + i / 2 <= buf.Length
      invariant buf[0..10] == header
      invariant buf[10..offset] == Packed(k.path)[..i / 2]
    {
      ghost var before := buf[10..offset];
      var low := if i + 1 < |k.path| then k.path[i + 1] else 0;
      buf[offset] := PackNibbles(k.path[i], low);
      PairAt(k.path, i);
      assert buf[10..offset] == before;
      assert buf[10..offset + 1] == before + [buf[offset]];
      offset, i := offset + 1, i + 2;
    }
    r := buf[..offset];
    assert Packed(k.path)[..i / 2] == Packed(k.path);
    assert r == buf[0..10] + buf[10..offset];
  }

  lemma PairAt(p: Path, i: nat)
    requires i < |p| && i % 2 == 0
    ensures var b := PackNibbles(p[i], if i + 1 < |p| then p[i + 1] else 0);
            Packed(p)[..i / 2 + 1] == Packed(p)[..i / 2] + [b]
  {
    assert Packed(p)[i / 2] == PackedByte(p, i / 2);
  }

  /** Byte `j` after `i` nibbles: half of it may be missing. */
  function ByteSoFar(p: Path, i: nat, j: nat): Byte
    requires i <= |p| && 2 * j < i
  {
    if 2 * j + 1 < i then PackedByte(p, j) else Shifted(p[2 * j])
  }

  /** The packers of pkg/storage and pkg/tree: one nibble a turn, OR-ed into its byte. */
  method MakeNodeKey(k: NodeKey) returns (r: Bytes)
    requires |k.path| <= MAX_DEPTH
    ensures r == NodeStorageKey(k)
  {
    hide ToBytes, Packed, SoFar;
    var key := new Byte[11 + (|k.path| + 1) / 2](_ => 0);
    key[0] := NODE_PREFIX;
    PutHeader(key, 1, k);
    ghost var head := key[..11];
    assert head == [key[0]] + key[1..1 + 10];
    NothingSoFar(key[..], k.path);
    for i := 0 to |k.path|
      invariant key[..11] == head && SoFar(key[..], k.path, i)
    {
      PackNibble(key, k.path, i);
    }
    r := key[..];
    AllPacked(r, k.path);
    assert r == r[..11] + r[11..];
  }

  /** Pack nibble `i`: an even one into a new byte, an odd one into the low half of its byte. */
  method PackNibble(key: array<Byte>, p: Path, i: nat)
    requires i < |p| && key.Length == 11 + (|p| + 1) / 2 && SoFar(key[..], p, i)
    modifies key
    ensures SoFar(key[..], p, i + 1) && key[..11] == old(key[..11])
  {
    hide Or, ByteSoFar, Shifted;
    var at := 11 + i / 2;
    ghost var before := key[..];
    NextByteSoFar(p, i);
    if i % 2 == 0 {
      key[at] := Shifted(p[i]);
    } else {
      assert before[11 + i / 2] == ByteSoFar(p, i, i / 2);
      key[at] := Or(key[at], p[i]);
    }
    assert key[..] == before[at := key[at]];
    SoFarAdvances(before, key[..], p, i);
  }

  lemma NothingSoFar(key: Bytes, p: Path)
    requires |key| == 11 + (|p| + 1) / 2
    ensures SoFar(key, p, 0)
  {
  }

  lemma AllPacked(key: Bytes, p: Path)
    requires |key| == 11 + (|p| + 1) / 2 && SoFar(key, p, |p|)
    ensures key[11..] == Packed(p)
  {
    hide Packed, ByteSoFar;
    forall j | 0 <= j < (|p| + 1) / 2
      ensures key[11 + j] == Packed(p)[j]
    {
      LastByteSoFar(p, j);
    }
  }

  ghost predicate SoFar(key: Bytes, p: Path, i: nat)
    requires i <= |p| && |key| == 11 + (|p| + 1) / 2
  {
    forall j | 0 <= j < (i + 1) / 2 :: key[11 + j] == ByteSoFar(p, i, j)
  }

  lemma SoFarAdvances(before: Bytes, after: Bytes, p: Path, i: nat)
    requires i < |p| && |before| == |after| == 11 + (|p| + 1) / 2 && SoFar(before, p, i)
    requires after == before[11 + i / 2 := after[11 + i / 2]]
    requires after[11 + i / 2] == if i % 2 == 0 then Shifted(p[i]) else Or(before[11 + i / 2], p[i])
    ensures SoFar(after, p, i + 1)
  {
    hide Or, ByteSoFar, Shifted;
    NextByteSoFar(p, i);
    var next := i + 1;
    forall j | 0 <= j < (next + 1) / 2
      ensures after[11 + j] == ByteSoFar(p, next, j)
    {
      if j < i / 2 {
        assert before[11 + j] == ByteSoFar(p, i, j);
      } else {
        assert j == i / 2;
        assert i % 2 == 1 ==> before[11 + j] == ByteSoFar(p, i, j);
      }
    }
  }

  lemma NextByteSoFar(p: Path, i: nat)
    requires i < |p|
    ensures forall j | 0 <= j < i / 2 :: ByteSoFar(p, i + 1, j) == ByteSoFar(p, i, j)
    ensures i % 2 == 0 ==> ByteSoFar(p, i + 1, i / 2) == Shifted(p[i])
    ensures i % 2 == 1 ==> Or(ByteSoFar(p, i, i / 2), p[i]) == ByteSoFar(p, i + 1, i / 2)
  {
    hide Or;
    if i % 2 == 1 { OrHalves(p[i - 1], p[i]); }
  }

  lemma LastByteSoFar(p: Path, j: nat)
    requires 2 * j < |p|
    ensures ByteSoFar(p, |p|, j) == Packed(p)[j]
  {
  }

  /** Read a node key back; trailing bytes are ignored. */
  method DecodeNodeKey(buf: Bytes) returns (r: Option<NodeKey>)
    ensures r == DecodedKey(buf)
  {
    hide FromBytes, ReadVersion;
    if |buf| < 10 { return None; }
    var version := GetNumber(buf, 0, 8);
    var n := GetNumber(buf, 8, 2);
    assert buf[0..8] == buf[..8];
    if n > MAX_DEPTH { return None; }
    if |buf| < 10 + (n + 1) / 2 { return None; }
    var nibbles: Path := [];
    var offset, i := 10, 0;
    while i < n
      invariant 0 <= i <= n + 1 && i % 2 == 0 && offset == 10 + i / 2
      invariant nibbles == Unpacked(buf[10..], if i <= n then i else n)
    {
      var b := buf[offset];
      nibbles := nibbles + [b / 16];
      if i + 1 < n { nibbles := nibbles + [b % 16]; }
      offset, i := offset + 1, i + 2;
    }
    NumberIsVersion(buf[..8]);
    return Some(NodeKey(version, nibbles));
  }

  lemma NumberIsVersion(b: Bytes)
    requires |b| == 8
    ensures FromBytes(b) == ReadVersion(b)
  {
  }

  /** Parse a storage key: the prefix and the exact length are required. */
  method ParseNodeKey(key: Bytes) returns (r: Option<NodeKey>)
    ensures r.Some? <==>
        |key| >= 11 && key[0] == NODE_PREFIX && DecodedKey(key[1..]).Some? &&
          |key| == 11 + (FromBytes(key[9..11]) + 1) / 2
    ensures r.Some? ==> r == DecodedKey(key[1..])
    ensures forall k: NodeKey | |k.path| <= MAX_DEPTH && key == NodeStorageKey(k) :: r == Some(k)
  {
    hide FromBytes, ReadVersion, ToBytes;
    if |key| < 11 || key[0] != NODE_PREFIX { ParsesKeys(key); return None; }
    assert key[1..][8..10] == key[9..11] && key[1..][..8] == key[1..9];
    var version := GetNumber(key, 1, 8);
    var n := GetNumber(key, 9, 2);
    ParsesKeys(key);
    if n > MAX_DEPTH || |key| != 11 + (n + 1) / 2 { return None; }
    var nibbles: Path := [];
    for i := 0 to n
      invariant nibbles == Unpacked(key[1..][10..], i)
    {
      nibbles := nibbles + [if i % 2 == 0 then key[11 + i / 2] / 16 else key[11 + i / 2] % 16];
    }
    NumberIsVersion(key[1..9]);
    return Some(NodeKey(version, nibbles));
  }

  lemma ParsesKeys(key: Bytes)
    ensures forall k: NodeKey | |k.path| <= MAX_DEPTH && key == NodeStorageKey(k) ::
              && |key| >= 11 && key[0] == NODE_PREFIX && DecodedKey(key[1..]) == Some(k)
              && |key| == 11 + (FromBytes(key[9..11]) + 1) / 2
  {
    hide ToBytes, FromBytes, DecodedKey, Packed;
    forall k: NodeKey | |k.path| <= MAX_DEPTH && key == NodeStorageKey(k)
      ensures && |key| >= 11 && key[0] == NODE_PREFIX && DecodedKey(key[1..]) == Some(k)
              && |key| == 11 + (FromBytes(key[9..11]) + 1) / 2
    {
      assert key[1..] == EncodedKey(k) == EncodedKey(k) + [];
      KeyRoundTrip(k, []);
      assert key[9..11] == ToBytes(|k.path|, 2);
      Widths();
      NumberRoundTrip(|k.path|, 2);
    }
  }
}
