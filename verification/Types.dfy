/**
 Bytes, hashes, keys, nibble paths and node keys (pkg/types).

 A hash function is a parameter of everything that hashes: `Hasher` is any total function from
 byte strings to non-zero 32-byte strings.  Nothing assumes that it is injective.
 */
module Types {

  const MAX_DEPTH := 64
  const MAX_VALUE_SIZE := 0x10_0000
  const MAX_VERSION := 0xFFFF_FFFF_FFFF_FFFE

  datatype Option<+T> = None | Some(value: T)

  type Byte = x: int | 0 <= x < 256
  type Bytes = seq<Byte>
  type Nibble = x: int | 0 <= x < 16
  type Path = seq<Nibble>
  type Version = x: int | 0 <= x < 0x1_0000_0000_0000_0000

  /** The number of a version that can hold nodes; 0 is the initial empty version. */
  type RealVersion = v: Version | v > 0 witness 1

  type Hash = b: Bytes | |b| == 32 witness Zeros(32)
  type Key = b: Bytes | |b| == 32 witness Zeros(32)

  function Zeros(n: nat): (b: Bytes)
    ensures |b| == n && forall i | 0 <= i < n :: b[i] == 0
  {
    if n == 0 then [] else [0] + Zeros(n - 1)
  }

  /** The all-zero hash, which stands for an empty tree. */
  const ZERO: Hash := Zeros(32)
  /** The all-zero key, which every entry point refuses. */
  const ZERO_KEY: Key := Zeros(32)

  type Digest = h: Hash | h != ZERO witness (assert ([1] + Zeros(31))[0] != Zeros(32)[0]; [1] + Zeros(31))
  type Hasher = Bytes -> Digest

  /** No two different strings of `s` have the same hash. */
  ghost predicate CollisionFree(H: Hasher, s: set<Bytes>) {
    forall x, y :: x in s && y in s && H(x) == H(y) ==> x == y
  }

  /** The nibble of `k` at `depth`: the high half of a byte first. */
  function ExtractNibble(k: Key, depth: nat): Nibble
    requires depth < MAX_DEPTH
  {
    if depth % 2 == 0 then k[depth / 2] / 16 else k[depth / 2] % 16
  }

  function ToPath(k: Key): (p: Path)
    ensures |p| == MAX_DEPTH
  {
    seq(MAX_DEPTH, i requires 0 <= i < MAX_DEPTH => ExtractNibble(k, i))
  }

  /** A byte of a key is two nibbles of its path, the high one first. */
  lemma PathBytes(k: Key, i: nat)
    requires i < 32
    ensures k[i] / 16 == ToPath(k)[2 * i] && k[i] % 16 == ToPath(k)[2 * i + 1]
  {
  }

  /** A key is determined by its nibble path. */
  lemma ToPathInjective(a: Key, b: Key)
    requires ToPath(a) == ToPath(b)
    ensures a == b
  {
    forall i | 0 <= i < 32
      ensures a[i] == b[i]
    {
      assert ToPath(a)[2 * i] == ToPath(b)[2 * i];
      assert ToPath(a)[2 * i + 1] == ToPath(b)[2 * i + 1];
    }
  }

  /** `high << 4 | low`: the two halves do not overlap, so the OR is a sum. */
  function PackNibbles(high: Nibble, low: Nibble): (b: Byte)
    ensures b / 16 == high && b % 16 == low
  {
    var h: int := high;
    h * 16 + low
  }

  /** Every full path is the path of some key. */
  function FromPath(p: Path): (k: Key)
    requires |p| == MAX_DEPTH
    ensures ToPath(k) == p
  {
    seq(32, i requires 0 <= i < 32 => PackNibbles(p[2 * i], p[2 * i + 1]))
  }

  /** A node is stored under the version that wrote it and its position in the tree. */
  datatype NodeKey = NodeKey(version: Version, path: Path) {
    function Child(n: Nibble, v: Version): NodeKey {
      NodeKey(v, path + [n])
    }
  }

  function RootNodeKey(v: Version): NodeKey {
    NodeKey(v, [])
  }

  /** The zero NodeKey, used for "no such node". */
  const NO_KEY := NodeKey(0, [])
}
