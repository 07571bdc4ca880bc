/**
 Streams of nodes: an encoder that appends, a decoder that advances (pkg/codec/batch.go).
 */
module Streams {
  import opened Types
  import opened Nodes
  import opened KeyCodec
  import opened NodeCodec

  datatype Entry = Entry(key: NodeKey, node: NodeData)

  datatype StreamItem = Item(entry: Entry) | End | Bad

  /** A length in four bytes, then the bytes. */
  function Block(x: Bytes): Bytes {
    ToBytes(|x|, 4) + x
  }

  function Frame(e: Entry): Bytes {
    Block(EncodedKey(e.key)) + Block(EncodedNode(e.node))
  }

  function Stream(entries: seq<Entry>): Bytes {
    if entries == [] then [] else Frame(entries[0]) + Stream(entries[1..])
  }

  /** The frame of an entry: key and node, each after its length in four bytes. */
  lemma FrameLayout(e: Entry)
    requires |e.key.path| <= MAX_DEPTH
    ensures var b, k, d := Frame(e), |EncodedKey(e.key)|, |EncodedNode(e.node)|;
            && |b| == 8 + k + d && FromBytes(b[..4]) == k && b[4..4 + k] == EncodedKey(e.key)
            && FromBytes(b[4 + k..8 + k]) == d && b[8 + k..] == EncodedNode(e.node)
  {
    hide ToBytes, FromBytes, EncodedKey, EncodedNode, Power256;
    Sizes(e);
    Widths();
    var x, y, b := EncodedKey(e.key), EncodedNode(e.node), Frame(e);
    NumberRoundTrip(|x|, 4);
    NumberRoundTrip(|y|, 4);
    assert b[..4] == ToBytes(|x|, 4) && b[4..4 + |x|] == x;
    assert b[4 + |x|..8 + |x|] == ToBytes(|y|, 4) && b[8 + |x|..] == y;
  }

  lemma {:induction false} StreamGrows(entries: seq<Entry>, e: Entry)
    ensures Stream(entries + [e]) == Stream(entries) + Frame(e)
    decreases |entries|
  {
    hide Frame;
    if entries != [] {
      StreamGrows(entries[1..], e);
      assert (entries + [e])[1..] == entries[1..] + [e];
    } else {
      assert Stream([e]) == Frame(e) + Stream([e][1..]);
    }
  }

  /** The first block of `b` and what follows it. */
  function TakeBlock(b: Bytes): Option<(Bytes, Bytes)> {
    if |b| < 4 then None
    else
      var n := FromBytes(b[..4]);
      if |b| < 4 + n then None else Some((b[4..4 + n], b[4 + n..]))
  }

  lemma BlockRoundTrip(x: Bytes, rest: Bytes)
    requires |x| < 0x1_0000_0000
    ensures TakeBlock(Block(x) + rest) == Some((x, rest))
  {
    hide ToBytes, FromBytes;
    Widths();
    NumberRoundTrip(|x|, 4);
    var b := Block(x) + rest;
    assert b[..4] == ToBytes(|x|, 4) && b[4..4 + |x|] == x && b[4 + |x|..] == rest;
  }

  lemma BlockAt(data: Bytes, pos: nat)
    requires pos <= |data|
    ensures pos + 4 > |data| ==> TakeBlock(data[pos..]) == None
    ensures pos + 4 <= |data| ==>
              var n := FromBytes(data[pos..pos + 4]);
              TakeBlock(data[pos..]) == if pos + 4 + n > |data| then None
                else Some((data[pos + 4..pos + 4 + n], data[pos + 4 + n..]))
  {
    hide FromBytes;
    var b := data[pos..];
    if pos + 4 <= |data| {
      assert b[..4] == data[pos..pos + 4];
      var n := FromBytes(data[pos..pos + 4]);
      if pos + 4 + n <= |data| {
        assert b[4..4 + n] == data[pos + 4..pos + 4 + n];
        assert b[4 + n..] == data[pos + 4 + n..];
      }
    }
  }

  /** What the decoder finds at the start of `b`, and what it leaves. */
  function Take(b: Bytes): (StreamItem, Bytes) {
    if b == [] then (End, b)
    else
      match TakeBlock(b)
      case None => (Bad, b)
      case Some((keyData, more)) =>
        match DecodedKey(keyData)
        case None => (Bad, b)
        case Some(key) =>
          match TakeBlock(more)
          case None => (Bad, b)
          case Some((nodeData, rest)) =>
            match DecodedNode(nodeData, key.version)
            case None => (Bad, b)
            case Some(node) => (Item(Entry(key, node)), rest)
  }

  /** An entry as decoding gives it back. */
  function ReadEntry(e: Entry): Entry {
    Entry(e.key, ReadBack(e.node, e.key.version))
  }

  lemma TakeFrame(e: Entry, rest: Bytes)
    requires |e.key.path| <= MAX_DEPTH
    ensures Take(Frame(e) + rest) == (Item(ReadEntry(e)), rest)
  {
    hide Block, TakeBlock, EncodedKey, EncodedNode, DecodedKey, DecodedNode;
    var k, d := EncodedKey(e.key), EncodedNode(e.node);
    Sizes(e);
    var b := Frame(e) + rest;
    assert b == Block(k) + (Block(d) + rest);
    BlockRoundTrip(k, Block(d) + rest);
    BlockRoundTrip(d, rest);
    KeyRoundTrip(e.key, []);
    assert k + [] == k;
    NodeRoundTrip(e.node, e.key.version);
    FrameNotEmpty(k, Block(d) + rest);
  }

  lemma FrameNotEmpty(x: Bytes, rest: Bytes)
    ensures Block(x) + rest != []
  {
  }

  lemma Sizes(e: Entry)
    requires |e.key.path| <= MAX_DEPTH
    ensures |EncodedKey(e.key)| <= 42 && |EncodedNode(e.node)| <= 674
  {
    if e.node.InternalData? { InternalSize(e.node.children); }
  }

  class BatchEncoder {
    var buffer: Bytes
    ghost var entries: seq<Entry>

    ghost predicate Valid()
      reads this
    {
      buffer == Stream(entries)
    }

    constructor ()
      ensures Valid() && entries == []
    {
      buffer, entries := [], [];
    }

    method Add(key: NodeKey, node: NodeData)
      requires Valid() && |key.path| <= MAX_DEPTH
      modifies this
      ensures Valid() && entries == old(entries) + [Entry(key, node)]
      ensures buffer == old(buffer) + Frame(Entry(key, node))
    {
      hide EncodedKey, EncodedNode, Stream, ToBytes;
      var keyData := EncodeNodeKey(key);
      var size := NumberOf(|keyData|, 4);
      buffer := buffer + size;
      buffer := buffer + keyData;
      var nodeData := EncodeNode(node);
      size := NumberOf(|nodeData|, 4);
      buffer := buffer + size;
      buffer := buffer + nodeData;
      assert buffer == old(buffer) + Frame(Entry(key, node));
      StreamGrows(entries, Entry(key, node));
      entries := entries + [Entry(key, node)];
    }
  }

  class BatchDecoder {
    const data: Bytes
    var pos: nat

    ghost predicate Valid()
      reads this
    {
      pos <= |data|
    }

    constructor (data: Bytes)
      ensures Valid() && this.data == data && pos == 0
    {
      this.data, pos := data, 0;
    }

    /** Read one length-prefixed block. */
    method NextBlock() returns (r: Option<Bytes>)
      requires Valid()
      modifies this
      ensures Valid() && r.Some? == TakeBlock(data[old(pos)..]).Some?
      ensures r.Some? ==> TakeBlock(data[old(pos)..]) == Some((r.value, data[pos..]))
    {
      hide FromBytes, TakeBlock;
      BlockAt(data, pos);
      if pos + 4 > |data| { return None; }
      var n := GetNumber(data, pos, 4);
      pos := pos + 4;
      if pos + n > |data| { return None; }
      r := Some(data[pos..pos + n]);
      pos := pos + n;
    }

    /** The next entry; never reads outside the data, whatever it holds. */
    method Next() returns (r: StreamItem)
      requires Valid()
      modifies this
      ensures Valid() && r == Take(data[old(pos)..]).0
      ensures r.Item? ==> data[pos..] == Take(data[old(pos)..]).1
    {
      hide TakeBlock, DecodedKey, DecodedNode;
      if pos >= |data| { return End; }
      var keyData := NextBlock();
      if keyData.None? { return Bad; }
      var key := DecodeNodeKey(keyData.value);
      if key.None? { return Bad; }
      var nodeData := NextBlock();
      if nodeData.None? { return Bad; }
      var node := DecodeNode(nodeData.value, key.value.version);
      if node.None? { return Bad; }
      return Item(Entry(key.value, node.value));
    }
  }

  /** Reading a stream to its end gives back, in order, all that was added, as decoding gives it back. */
  method Drain(data: Bytes, ghost entries: seq<Entry>) returns (r: seq<Entry>)
    requires data == Stream(entries) && forall e | e in entries :: |e.key.path| <= MAX_DEPTH
    ensures |r| == |entries| && forall i | 0 <= i < |r| :: r[i] == ReadEntry(entries[i])
  {
    hide Take, Frame, ReadEntry;
    var decoder := new BatchDecoder(data);
    r := [];
    assert data[0..] == data;
    while true
      invariant decoder.Valid() && decoder.data == data && fresh(decoder)
      invariant |r| <= |entries| && forall i | 0 <= i < |r| :: r[i] == ReadEntry(entries[i])
      invariant data[decoder.pos..] == Stream(entries[|r|..])
      decreases |entries| - |r|
    {
      ghost var rest := entries[|r|..];
      if rest == [] { TakeEnd(); } else {
        assert entries[|r|] in entries;
        assert rest[0] == entries[|r|] && rest[1..] == entries[|r| + 1..];
        TakeFrame(rest[0], Stream(rest[1..]));
      }
      var item := decoder.Next();
      if !item.Item? {
        return;
      }
      r := r + [item.entry];
    }
  }

  lemma TakeEnd()
    ensures Stream([]) == [] && Take([]) == (End, [])
  {
  }
}
