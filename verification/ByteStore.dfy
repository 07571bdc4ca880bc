/**
 The byte store behind the tree: nodes, values and root hashes in one map from byte strings to byte
 strings, written in one atomic batch by a commit (pkg/tree/tree.go, pkg/storage/keys.go).
 */
module ByteStore {
  import opened Types
  import opened Nodes
  import opened KeyCodec
  import opened NodeCodec

  type ByteMap = map<Bytes, Bytes>

  // ----- What is stored of a node -----

  /** A node as it is stored: under its own version, a leaf without its value, which is stored apart. */
  ghost predicate StoredNode(key: NodeKey, d: NodeData, values: map<Hash, Bytes>) {
    0 < key.version == d.version && |key.path| <= MAX_DEPTH &&
    (d.LeafData? ==> d.key != ZERO_KEY && d.value.None? && d.valueHash in values)
  }

  /** A node as it is read back: a leaf's value is stored apart. */
  function Stripped(d: NodeData): NodeData {
    if d.LeafData? then d.(value := None) else d
  }

  function StrippedAll(writes: NodeMap): NodeMap {
    map key | key in writes :: Stripped(writes[key])
  }

  /** The values that the nodes of a batch carry, each under its hash. */
  ghost predicate ValuesOf(newNodes: NodeMap, newValues: map<Hash, Bytes>) {
    (forall h | h in newValues :: exists key :: CarriesValue(newNodes, key, h, newValues[h])) &&
    forall key | key in newNodes && newNodes[key].LeafData? && newNodes[key].value.Some? ::
      newNodes[key].valueHash in newValues
  }

  predicate CarriesValue(newNodes: NodeMap, key: NodeKey, h: Hash, value: Bytes) {
    key in newNodes && newNodes[key].LeafData? && newNodes[key].value == Some(value) && newNodes[key].valueHash == h
  }

  lemma NoValues()
    ensures ValuesOf(map[], map[])
  {
  }

  /** The value that a leaf carries joins the values. */
  function WithValue(values: map<Hash, Bytes>, d: NodeData): map<Hash, Bytes> {
    if d.LeafData? && d.value.Some? then values[d.valueHash := d.value.value] else values
  }

  lemma MoreValues(done: NodeMap, newValues: map<Hash, Bytes>, key: NodeKey, d: NodeData)
    requires ValuesOf(done, newValues) && key !in done
    ensures ValuesOf(done[key := d], WithValue(newValues, d))
  {
    var more := done[key := d];
    var values' := WithValue(newValues, d);
    forall h | h in values'
      ensures exists k :: CarriesValue(more, k, h, values'[h])
    {
      if d.LeafData? && d.value.Some? && h == d.valueHash {
        assert CarriesValue(more, key, h, values'[h]);
      } else {
        var k :| CarriesValue(done, k, h, newValues[h]);
        assert CarriesValue(more, k, h, values'[h]);
      }
    }
  }

  // ----- The image -----

  /** The store holds exactly these nodes, values and roots, each under its own key. */
  ghost predicate Encodes(store: ByteMap, nodes: NodeMap, values: map<Hash, Bytes>, roots: map<Version, Hash>) {
    (forall key | key in nodes :: HoldsNode(store, key, nodes[key])) &&
    (forall h | h in values :: ValueStorageKey(h) in store && store[ValueStorageKey(h)] == values[h]) &&
    (forall v | v in roots :: RootStorageKey(v) in store && store[RootStorageKey(v)] == roots[v]) &&
    forall b | b in store :: Known(b, nodes.Keys, values.Keys, roots.Keys)
  }

  ghost predicate HoldsNode(store: ByteMap, key: NodeKey, d: NodeData) {
    |key.path| <= MAX_DEPTH && NodeStorageKey(key) in store && store[NodeStorageKey(key)] == EncodedNode(d)
  }

  ghost predicate Known(b: Bytes, nodes: set<NodeKey>, values: set<Hash>, roots: set<Version>) {
    (exists key :: key in nodes && b == NodeStorageKey(key)) ||
    (exists h :: h in values && b == ValueStorageKey(h)) ||
    (exists v :: v in roots && b == RootStorageKey(v))
  }

  lemma EmptyEncodes()
    ensures Encodes(map[], map[], map[], map[])
  {
  }

  // ----- Writing -----

  lemma KnownGrows(b: Bytes, nodes: set<NodeKey>, values: set<Hash>, roots: set<Version>,
                   nodes': set<NodeKey>, values': set<Hash>, roots': set<Version>)
    requires Known(b, nodes, values, roots) && nodes <= nodes' && values <= values' && roots <= roots'
    ensures Known(b, nodes', values', roots')
  {
    hide NodeStorageKey, ValueStorageKey, RootStorageKey;
  }

  lemma WriteNode(store: ByteMap, nodes: NodeMap, values: map<Hash, Bytes>, roots: map<Version, Hash>, key: NodeKey,
                  d: NodeData)
    requires Encodes(store, nodes, values, roots) && |key.path| <= MAX_DEPTH
    ensures Encodes(store[NodeStorageKey(key) := EncodedNode(d)], nodes[key := Stripped(d)], values, roots)
  {
    hide NodeStorageKey, ValueStorageKey, RootStorageKey, EncodedNode, Known;
    var store' := store[NodeStorageKey(key) := EncodedNode(d)];
    EncodesStripped(d);
    forall k | k in nodes && k != key
      ensures HoldsNode(store', k, nodes[k])
    {
      assert HoldsNode(store, k, nodes[k]);
      if NodeStorageKey(k) == NodeStorageKey(key) { KeysInjective(k, key); }
    }
    forall h | h in values
      ensures ValueStorageKey(h) != NodeStorageKey(key)
    {
      PrefixesSeparate(key, h, 0);
    }
    forall v | v in roots
      ensures RootStorageKey(v) != NodeStorageKey(key)
    {
      PrefixesSeparate(key, ZERO, v);
    }
    forall b | b in store'
      ensures Known(b, nodes.Keys + {key}, values.Keys, roots.Keys)
    {
      if b == NodeStorageKey(key) {
        NodeIsKnown(key, nodes.Keys + {key}, values.Keys, roots.Keys);
      } else {
        KnownGrows(b, nodes.Keys, values.Keys, roots.Keys, nodes.Keys + {key}, values.Keys, roots.Keys);
      }
    }
    assert nodes[key := Stripped(d)].Keys == nodes.Keys + {key};
  }

  lemma NodeIsKnown(key: NodeKey, nodes: set<NodeKey>, values: set<Hash>, roots: set<Version>)
    requires key in nodes
    ensures Known(NodeStorageKey(key), nodes, values, roots)
  {
    hide NodeStorageKey, ValueStorageKey, RootStorageKey;
  }

  /** A leaf's value is not part of its encoding. */
  lemma EncodesStripped(d: NodeData)
    ensures EncodedNode(Stripped(d)) == EncodedNode(d)
  {
    hide EncodedInternal;
  }

  lemma WriteValue(store: ByteMap, nodes: NodeMap, values: map<Hash, Bytes>, roots: map<Version, Hash>, h: Hash,
                   x: Bytes)
    requires Encodes(store, nodes, values, roots)
    ensures Encodes(store[ValueStorageKey(h) := x], nodes, values[h := x], roots)
  {
    hide NodeStorageKey, ValueStorageKey, RootStorageKey, EncodedNode, Known;
    var store' := store[ValueStorageKey(h) := x];
    forall k | k in nodes
      ensures HoldsNode(store', k, nodes[k])
    {
      assert HoldsNode(store, k, nodes[k]);
      PrefixesSeparate(k, h, 0);
    }
    forall g | g in values && g != h
      ensures ValueStorageKey(g) != ValueStorageKey(h)
    {
      if ValueStorageKey(g) == ValueStorageKey(h) { ValueKeysInjective(g, h); }
    }
    forall v | v in roots
      ensures RootStorageKey(v) != ValueStorageKey(h)
    {
      PrefixesSeparate(NO_KEY, h, v);
    }
    forall b | b in store'
      ensures Known(b, nodes.Keys, values.Keys + {h}, roots.Keys)
    {
      if b == ValueStorageKey(h) {
        ValueIsKnown(h, nodes.Keys, values.Keys + {h}, roots.Keys);
      } else {
        KnownGrows(b, nodes.Keys, values.Keys, roots.Keys, nodes.Keys, values.Keys + {h}, roots.Keys);
      }
    }
    assert values[h := x].Keys == values.Keys + {h};
  }

  lemma ValueIsKnown(h: Hash, nodes: set<NodeKey>, values: set<Hash>, roots: set<Version>)
    requires h in values
    ensures Known(ValueStorageKey(h), nodes, values, roots)
  {
    hide NodeStorageKey, ValueStorageKey, RootStorageKey;
  }

  lemma WriteRoot(store: ByteMap, nodes: NodeMap, values: map<Hash, Bytes>, roots: map<Version, Hash>, v: Version,
                  h: Hash)
    requires Encodes(store, nodes, values, roots)
    ensures Encodes(store[RootStorageKey(v) := h], nodes, values, roots[v := h])
  {
    hide NodeStorageKey, ValueStorageKey, RootStorageKey, EncodedNode, Known;
    var store' := store[RootStorageKey(v) := h];
    forall k | k in nodes
      ensures HoldsNode(store', k, nodes[k])
    {
      assert HoldsNode(store, k, nodes[k]);
      PrefixesSeparate(k, ZERO, v);
    }
    forall g | g in values
      ensures ValueStorageKey(g) != RootStorageKey(v)
    {
      PrefixesSeparate(NO_KEY, g, v);
    }
    forall w | w in roots && w != v
      ensures RootStorageKey(w) != RootStorageKey(v)
    {
      if RootStorageKey(w) == RootStorageKey(v) { RootKeysInjective(w, v); }
    }
    forall b | b in store'
      ensures Known(b, nodes.Keys, values.Keys, roots.Keys + {v})
    {
      if b == RootStorageKey(v) {
        RootIsKnown(v, nodes.Keys, values.Keys, roots.Keys + {v});
      } else {
        KnownGrows(b, nodes.Keys, values.Keys, roots.Keys, nodes.Keys, values.Keys, roots.Keys + {v});
      }
    }
    assert roots[v := h].Keys == roots.Keys + {v};
  }

  lemma RootIsKnown(v: Version, nodes: set<NodeKey>, values: set<Hash>, roots: set<Version>)
    requires v in roots
    ensures Known(RootStorageKey(v), nodes, values, roots)
  {
    hide NodeStorageKey, ValueStorageKey, RootStorageKey;
  }

  /**
   The storage batch of a commit, in bytes.  It makes of a store that encodes some nodes, values and
   roots one that encodes them together with the batch.
   */
  method CommitBytes(store: ByteMap, newNodes: NodeMap, v: Version, rootHash: Hash,
                     ghost nodes: NodeMap, ghost values: map<Hash, Bytes>, ghost roots: map<Version, Hash>)
    returns (store': ByteMap, newValues: map<Hash, Bytes>)
    requires Encodes(store, nodes, values, roots) && forall key | key in newNodes :: |key.path| <= MAX_DEPTH
    ensures Encodes(store', nodes + StrippedAll(newNodes), values + newValues, roots[v := rootHash])
    ensures ValuesOf(newNodes, newValues)
  {
    hide Encodes, ValuesOf, RootStorageKey, WithValue, StrippedAll, Stripped;
    store', newValues := store, map[];
    NoValues();
    ghost var done: NodeMap := map[];
    NothingWritten(nodes, values);
    var todo := newNodes.Keys;
    while todo != {}
      invariant todo <= newNodes.Keys && done == newNodes - todo
      invariant Encodes(store', nodes + StrippedAll(done), values + newValues, roots) && ValuesOf(done, newValues)
    {
      var key :| key in todo;
      var d := newNodes[key];
      store' := PutNode(store', key, d, nodes + StrippedAll(done), values + newValues, roots);
      MoreValues(done, newValues, key, d);
      ValueAdded(values, newValues, d);
      MoreWritten(nodes, done, key, d);
      newValues, done, todo := WithValue(newValues, d), done[key := d], todo - {key};
    }
    assert done == newNodes;
    WriteRoot(store', nodes + StrippedAll(newNodes), values + newValues, roots, v, rootHash);
    var rootKey := MakeRootKey(v);
    store' := store'[rootKey := rootHash];
  }

  lemma NothingWritten(nodes: NodeMap, values: map<Hash, Bytes>)
    ensures nodes + StrippedAll(map[]) == nodes && values + map[] == values
  {
  }

  lemma MoreWritten(nodes: NodeMap, done: NodeMap, key: NodeKey, d: NodeData)
    ensures nodes + StrippedAll(done[key := d]) == (nodes + StrippedAll(done))[key := Stripped(d)]
  {
    hide Stripped;
  }

  lemma ValueAdded(values: map<Hash, Bytes>, newValues: map<Hash, Bytes>, d: NodeData)
    ensures values + WithValue(newValues, d) == WithValue(values + newValues, d)
  {
  }

  method MakeValueKey(h: Hash) returns (r: Bytes)
    ensures r == ValueStorageKey(h)
  {
    var key := new Byte[33](_ => 0);
    key[0] := VALUE_PREFIX;
    forall i | 0 <= i < 32 { key[1 + i] := h[i]; }
    r := key[..];
    assert r[1..] == h;
  }

  /** One node of a batch and, if it is a leaf that carries one, its value. */
  method PutNode(store: ByteMap, key: NodeKey, d: NodeData, ghost nodes: NodeMap, ghost values: map<Hash, Bytes>,
                 ghost roots: map<Version, Hash>)
    returns (store': ByteMap)
    requires Encodes(store, nodes, values, roots) && |key.path| <= MAX_DEPTH
    ensures Encodes(store', nodes[key := Stripped(d)], WithValue(values, d), roots)
  {
    hide Encodes, NodeStorageKey, ValueStorageKey, EncodedNode;
    var data := EncodeNode(d);
    var storageKey := MakeNodeKey(key);
    WriteNode(store, nodes, values, roots, key, d);
    store' := store[storageKey := data];
    if d.LeafData? && d.value.Some? {
      var valueKey := MakeValueKey(d.valueHash);
      WriteValue(store', nodes[key := Stripped(d)], values, roots, d.valueHash, d.value.value);
      store' := store'[valueKey := d.value.value];
    }
  }

  method MakeRootKey(v: Version) returns (r: Bytes)
    ensures r == RootStorageKey(v)
  {
    hide ToBytes;
    var key := new Byte[9](_ => 0);
    key[0] := ROOT_PREFIX;
    PutNumber(key, 1, v, 8);
    r := key[..];
    assert r == [key[0]] + key[1..1 + 8];
  }

  // ----- Reading -----

  /** What is found under a node's key is that node. */
  lemma NodeBytes(store: ByteMap, nodes: NodeMap, values: map<Hash, Bytes>, roots: map<Version, Hash>, key: NodeKey)
    requires Encodes(store, nodes, values, roots) && |key.path| <= MAX_DEPTH
    requires key in nodes ==> StoredNode(key, nodes[key], values)
    ensures NodeStorageKey(key) in store <==> key in nodes
    ensures key in nodes ==> DecodedNode(store[NodeStorageKey(key)], key.version) == Some(nodes[key])
  {
    hide NodeStorageKey, ValueStorageKey, RootStorageKey, EncodedNode, DecodedNode;
    if key in nodes {
      assert HoldsNode(store, key, nodes[key]);
      NodeRoundTrip(nodes[key], key.version);
    } else if NodeStorageKey(key) in store {
      var b := NodeStorageKey(key);
      assert Known(b, nodes.Keys, values.Keys, roots.Keys);
      if k :| k in nodes && b == NodeStorageKey(k) {
        assert HoldsNode(store, k, nodes[k]);
        KeysInjective(k, key);
      } else if h :| h in values && b == ValueStorageKey(h) {
        PrefixesSeparate(key, h, 0);
      } else if v :| v in roots && b == RootStorageKey(v) {
        PrefixesSeparate(key, ZERO, v);
      }
    }
  }

  /** Loading by bytes is loading from the nodes: what the cache is filled with. */
  method LoadNode(store: ByteMap, key: NodeKey, ghost nodes: NodeMap, ghost values: map<Hash, Bytes>,
                  ghost roots: map<Version, Hash>)
    returns (r: Option<NodeData>)
    requires Encodes(store, nodes, values, roots) && |key.path| <= MAX_DEPTH
    requires key in nodes ==> StoredNode(key, nodes[key], values)
    ensures r == if key in nodes then Some(nodes[key]) else None
  {
    hide Encodes, NodeStorageKey, DecodedNode, StoredNode;
    NodeBytes(store, nodes, values, roots, key);
    var storageKey := MakeNodeKey(key);
    if storageKey !in store { return None; }
    r := DecodeNode(store[storageKey], key.version);
  }

  /** What is found under a value's hash is that value. */
  lemma ValueBytes(store: ByteMap, nodes: NodeMap, values: map<Hash, Bytes>, roots: map<Version, Hash>, h: Hash)
    requires Encodes(store, nodes, values, roots)
    ensures ValueStorageKey(h) in store <==> h in values
    ensures h in values ==> store[ValueStorageKey(h)] == values[h]
  {
    hide NodeStorageKey, ValueStorageKey, RootStorageKey, EncodedNode;
    if h !in values && ValueStorageKey(h) in store {
      var b := ValueStorageKey(h);
      assert Known(b, nodes.Keys, values.Keys, roots.Keys);
      if k :| k in nodes && b == NodeStorageKey(k) {
        PrefixesSeparate(k, h, 0);
      } else if g :| g in values && b == ValueStorageKey(g) {
        ValueKeysInjective(g, h);
      } else if v :| v in roots && b == RootStorageKey(v) {
        PrefixesSeparate(NO_KEY, h, v);
      }
    }
  }

  method LoadBytes(store: ByteMap, h: Hash, ghost nodes: NodeMap, ghost values: map<Hash, Bytes>,
                   ghost roots: map<Version, Hash>)
    returns (r: Option<Bytes>)
    requires Encodes(store, nodes, values, roots)
    ensures r == if h in values then Some(values[h]) else None
  {
    hide Encodes, ValueStorageKey;
    ValueBytes(store, nodes, values, roots, h);
    var key := MakeValueKey(h);
    return if key in store then Some(store[key]) else None;
  }

  method ParseRootKey(key: Bytes) returns (r: Option<Version>)
    ensures r.Some? <==> |key| == 9 && key[0] == ROOT_PREFIX
    ensures r.Some? ==> key == RootStorageKey(r.value)
  {
    hide FromBytes, ToBytes, ReadVersion;
    if |key| == 0 || key[0] != ROOT_PREFIX || |key| != 9 { return None; }
    var v := GetNumber(key, 1, 8);
    NumberIsVersion(key[1..9]);
    BytesRoundTrip(key[1..9]);
    assert key == [key[0]] + key[1..9];
    return Some(v);
  }

  /** A key with the root prefix is the key of a stored root. */
  lemma OnlyRootsHavePrefix(store: ByteMap, nodes: NodeMap, values: map<Hash, Bytes>, roots: map<Version, Hash>,
                            b: Bytes)
    requires Encodes(store, nodes, values, roots) && b in store && |b| > 0 && b[0] == ROOT_PREFIX
    ensures |b| == 9
    ensures forall v: Version :: b == RootStorageKey(v) ==> v in roots && store[b] == roots[v]
  {
    hide ToBytes, EncodedKey, EncodedNode;
    assert Known(b, nodes.Keys, values.Keys, roots.Keys);
    var w :| w in roots && b == RootStorageKey(w);
    forall v: Version | b == RootStorageKey(v)
      ensures v in roots && store[b] == roots[v]
    {
      RootKeysInjective(v, w);
    }
  }

  predicate HasRootPrefix(b: Bytes) {
    |b| > 0 && b[0] == ROOT_PREFIX
  }

  lemma RootsAreThere(store: ByteMap, nodes: NodeMap, values: map<Hash, Bytes>, roots: map<Version, Hash>)
    requires Encodes(store, nodes, values, roots)
    ensures forall v | v in roots :: RootStorageKey(v) in store && HasRootPrefix(RootStorageKey(v))
  {
    hide NodeStorageKey, ValueStorageKey, EncodedNode, Known, HoldsNode, ToBytes;
    forall v | v in roots
      ensures RootStorageKey(v) in store && HasRootPrefix(RootStorageKey(v))
    {
      assert RootStorageKey(v)[0] == ROOT_PREFIX;
    }
  }

  /** One root record. */
  method ReadRoot(store: ByteMap, b: Bytes, ghost nodes: NodeMap, ghost values: map<Hash, Bytes>,
                  ghost roots: map<Version, Hash>)
    returns (ok: bool, v: Version, h: Hash)
    requires Encodes(store, nodes, values, roots) && b in store && HasRootPrefix(b)
    ensures ok && b == RootStorageKey(v) && v in roots && h == roots[v]
    ensures forall w | w in roots && RootStorageKey(w) == b :: w == v
  {
    hide Encodes, RootStorageKey;
    OnlyRootsHavePrefix(store, nodes, values, roots, b);
    ok, v, h := false, 0, ZERO;
    var parsed := ParseRootKey(b);
    if parsed.None? { return; }
    v := parsed.value;
    if |store[b]| != 32 { return; }
    forall w | w in roots && RootStorageKey(w) == b
      ensures w == v
    {
      RootKeysInjective(w, v);
    }
    return true, v, store[b];
  }

  /** Scanning the root prefix finds every stored root hash and nothing else. */
  method ScanRoots(store: ByteMap, ghost nodes: NodeMap, ghost values: map<Hash, Bytes>,
                   ghost roots: map<Version, Hash>)
    returns (ok: bool, found: map<Version, Hash>)
    requires Encodes(store, nodes, values, roots)
    ensures ok && found == roots
  {
    hide Encodes, RootStorageKey, HasRootPrefix;
    found := map[];
    var todo := set b | b in store && HasRootPrefix(b);
    RootsAreThere(store, nodes, values, roots);
    while todo != {}
      invariant forall b | b in todo :: b in store && HasRootPrefix(b)
      invariant forall v | v in found :: v in roots && found[v] == roots[v]
      invariant forall v | v in roots && v !in found :: RootStorageKey(v) in todo
    {
      var b :| b in todo;
      var fine, v, h := ReadRoot(store, b, nodes, values, roots);
      if !fine { return false, found; }
      found := found[v := h];
      todo := todo - {b};
    }
    assert found == roots;
    return true, found;
  }
}
